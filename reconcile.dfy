/** What `update_to` does to the metadata, stated on values: the rebuilt
    dependency lists of `update_deps_from`, the file passes of
    `update_files_from` and the new version, release and changelog entry of
    `update_metadata_from`. The methods of `Polisher.RPMSpec` are proved
    against these functions. */
module Reconcile {
  import opened Wrappers
  import opened Strings
  import opened Matchers
  import opened SpecData
  import opened Sequences

  // ---------------------------------------------------------------------
  // update_deps_from

  /** `r !~ SPEC_GEM_REQ_MATCHER`: a requirement that is not a library. */
  predicate IsNative(r: string) {
    GemReqName(r).None?
  }

  /** A library requirement naming a gem outside `deps`. */
  predicate IsExtra(r: string, deps: seq<string>) {
    GemReqName(r).Some? && GemReqName(r).value !in deps
  }

  /** A library requirement naming a gem of `deps`: the rebuild drops it
      and renders the dependency afresh. */
  predicate IsCurrent(r: string, deps: seq<string>) {
    GemReqName(r).Some? && GemReqName(r).value in deps
  }

  function NativeTest(): string -> bool {
    r => IsNative(r)
  }

  function ExtraTest(deps: seq<string>): string -> bool {
    r => IsExtra(r, deps)
  }

  function CurrentTest(deps: seq<string>): string -> bool {
    r => IsCurrent(r, deps)
  }

  /** `non_gem_requires` after the loop over `rs`. */
  function Natives(rs: seq<string>): seq<string> {
    Filter(rs, NativeTest())
  }

  /** `extra_gem_requires` after the loop over `rs`. */
  function Extras(rs: seq<string>, deps: seq<string>): seq<string> {
    Filter(rs, ExtraTest(deps))
  }

  /** One more entry for the sorting loop: `rs[i]` joins the natives or
      the extras according to its name, or neither. */
  lemma SortStep(rs: seq<string>, i: nat, deps: seq<string>)
    requires i < |rs|
    ensures Natives(rs[..i + 1]) == Natives(rs[..i]) + (if IsNative(rs[i]) then [rs[i]] else [])
    ensures Extras(rs[..i + 1], deps) == Extras(rs[..i], deps) + (if IsExtra(rs[i], deps) then [rs[i]] else [])
  {
    assert rs[..i + 1] == rs[..i] + [rs[i]];
    FilterSnoc(rs[..i], rs[i], NativeTest());
    FilterSnoc(rs[..i], rs[i], ExtraTest(deps));
  }

  /** The entries the loop passes over. */
  function Currents(rs: seq<string>, deps: seq<string>): seq<string> {
    Filter(rs, CurrentTest(deps))
  }

  /** `deps.collect { |r| "rubygem(#{r})" }`. */
  function GemReqs(deps: seq<string>): (rs: seq<string>)
    ensures |rs| == |deps| && forall i :: 0 <= i < |deps| ==> rs[i] == GemReq(deps[i])
  {
    if deps == [] then [] else [GemReq(deps[0])] + GemReqs(deps[1..])
  }

  /** The list `update_deps_from` assigns, from the old list (`nil` reads
      as empty through `||=`) and the new source's names. */
  function RebuildDeps(rs: Option<seq<string>>, deps: seq<string>): seq<string> {
    var current := rs.GetOr([]);
    Natives(current) + Extras(current, deps) + GemReqs(deps)
  }

  /** The loop sorts every old entry into exactly one of the three kinds:
      nothing is lost and nothing duplicated. */
  lemma DepsPartition(rs: seq<string>, deps: seq<string>)
    ensures multiset(Natives(rs)) + multiset(Extras(rs, deps)) + multiset(Currents(rs, deps))
      == multiset(rs)
  {
    FilterPartition(rs, NativeTest(), ExtraTest(deps), CurrentTest(deps));
  }

  /** The rebuilt list: every native entry survives, in order, at the
      front; no surviving old library entry names a current dependency;
      every current dependency is rendered as `rubygem(name)`. */
  lemma RebuildDepsContents(rs: Option<seq<string>>, deps: seq<string>)
    ensures forall r :: r in rs.GetOr([]) && IsNative(r) ==> r in RebuildDeps(rs, deps)
    ensures forall r :: r in rs.GetOr([]) && IsExtra(r, deps) ==> r in RebuildDeps(rs, deps)
    ensures forall r :: r in rs.GetOr([]) && IsCurrent(r, deps) ==>
      (r in RebuildDeps(rs, deps) <==> r in GemReqs(deps))
    ensures forall d :: d in deps ==> GemReq(d) in RebuildDeps(rs, deps)
    ensures RebuildDeps(rs, deps)[..|Natives(rs.GetOr([]))|] == Natives(rs.GetOr([]))
  {
    var current := rs.GetOr([]);
    FilterMembers(current, NativeTest());
    FilterMembers(current, ExtraTest(deps));
    var ns, xs, gs := Natives(current), Extras(current, deps), GemReqs(deps);
    assert RebuildDeps(rs, deps) == ns + xs + gs;
    forall d | d in deps ensures GemReq(d) in RebuildDeps(rs, deps) {
      var i :| 0 <= i < |deps| && deps[i] == d;
      assert gs[i] == GemReq(d);
      assert (ns + xs + gs)[|ns| + |xs| + i] == gs[i];
    }
    assert (ns + xs + gs)[..|ns|] == ns;
  }

  /** A gem name `update_deps_from` can give back: on one line and without
      a `rubygem(` of its own. */
  predicate PlainName(d: string) {
    !Contains(d, GemOpen) && forall i :: 0 <= i < |d| ==> d[i] != '\n'
  }

  /** A rendered requirement names its own gem again. */
  lemma GemReqsNames(deps: seq<string>)
    requires forall d :: d in deps ==> PlainName(d)
    ensures forall r :: r in GemReqs(deps) ==> GemReqName(r).Some? && GemReqName(r).value in deps
  {
    forall r | r in GemReqs(deps) ensures GemReqName(r).Some? && GemReqName(r).value in deps {
      var i :| 0 <= i < |deps| && GemReqs(deps)[i] == r;
      assert deps[i] in deps;
      assert PlainName(deps[i]);
      GemReqRoundTrip(deps[i]);
    }
  }

  /** How each of the three parts of a rebuilt list filters again. */
  lemma NativesRefilter(rs: seq<string>, deps: seq<string>)
    ensures Filter(Natives(rs), NativeTest()) == Natives(rs)
    ensures Filter(Natives(rs), ExtraTest(deps)) == []
  {
    FilterMembers(rs, NativeTest());
    FilterAll(Natives(rs), NativeTest());
    FilterNone(Natives(rs), ExtraTest(deps));
  }

  lemma ExtrasRefilter(rs: seq<string>, deps: seq<string>)
    ensures Filter(Extras(rs, deps), NativeTest()) == []
    ensures Filter(Extras(rs, deps), ExtraTest(deps)) == Extras(rs, deps)
  {
    FilterMembers(rs, ExtraTest(deps));
    FilterNone(Extras(rs, deps), NativeTest());
    FilterAll(Extras(rs, deps), ExtraTest(deps));
  }

  lemma GemReqsRefilter(deps: seq<string>)
    requires forall d :: d in deps ==> PlainName(d)
    ensures Filter(GemReqs(deps), NativeTest()) == []
    ensures Filter(GemReqs(deps), ExtraTest(deps)) == []
  {
    GemReqsNames(deps);
    FilterNone(GemReqs(deps), NativeTest());
    FilterNone(GemReqs(deps), ExtraTest(deps));
  }

  /** Filtering a concatenation of three filters each part. */
  lemma FilterThree(a: seq<string>, b: seq<string>, c: seq<string>, p: string -> bool)
    ensures Filter(a + b + c, p) == Filter(a, p) + Filter(b, p) + Filter(c, p)
  {
    FilterAppend(a + b, c, p);
    FilterAppend(a, b, p);
  }

  /** Running `update_deps_from` again with the same source changes nothing,
      as long as the source's names are plain. */
  lemma RebuildDepsIdempotent(rs: Option<seq<string>>, deps: seq<string>)
    requires forall d :: d in deps ==> PlainName(d)
    ensures RebuildDeps(Some(RebuildDeps(rs, deps)), deps) == RebuildDeps(rs, deps)
  {
    GemReqsRefilter(deps);
    RebuildAgain(rs.GetOr([]), deps);
  }

  /** The rebuilt list sorts back into its own parts when the rendered
      requirements fall in neither kept part. */
  lemma RebuildAgain(current: seq<string>, deps: seq<string>)
    requires Filter(GemReqs(deps), NativeTest()) == [] && Filter(GemReqs(deps), ExtraTest(deps)) == []
    ensures Natives(RebuildDeps(Some(current), deps)) == Natives(current)
    ensures Extras(RebuildDeps(Some(current), deps), deps) == Extras(current, deps)
  {
    var ns, xs, gs := Natives(current), Extras(current, deps), GemReqs(deps);
    NativesRefilter(current, deps);
    ExtrasRefilter(current, deps);
    FilterThree(ns, xs, gs, NativeTest());
    FilterThree(ns, xs, gs, ExtraTest(deps));
    assert Natives(ns + xs + gs) == ns + [] + [];
    assert Extras(ns + xs + gs, deps) == [] + xs + [];
  }

  // ---------------------------------------------------------------------
  // update_files_from

  /** `spec_files.any? { |sf| gem_file.gsub(sf, '') != gem_file }`: some
      manifest line occurs in the file name. An empty line covers nothing,
      as removing the empty text changes nothing. */
  function Covers(sfs: seq<string>, g: string): (b: bool)
    ensures b <==> exists i :: 0 <= i < |sfs| && sfs[i] != [] && Contains(g, sfs[i])
  {
    if sfs == [] then false
    else
      assert forall i :: 1 <= i < |sfs| ==> sfs[i] == sfs[1..][i - 1];
      DeleteAll(g, sfs[0]) != g || Covers(sfs[1..], g)
  }

  function Other(x: string): string -> bool {
    y => y != x
  }

  /** `to_add.delete(x)`: every element equal to `x` removed. */
  function RemoveAll(s: seq<string>, x: string): seq<string> {
    Filter(s, Other(x))
  }

  /** Index of the first occurrence of `x` in `s`, or `|s|` when `x` is
      not there. */
  function FirstPos(s: seq<string>, x: string): (n: nat)
    ensures n <= |s| && x !in s[..n]
    ensures n < |s| ==> s[n] == x
    ensures n == |s| <==> x !in s
  {
    if s == [] then 0
    else if s[0] == x then 0
    else
      var n := 1 + FirstPos(s[1..], x);
      assert s[..n] == [s[0]] + s[1..][..n - 1];
      assert s == [s[0]] + s[1..];
      n
  }

  lemma FirstPosSnoc(s: seq<string>, x: string, y: string)
    ensures FirstPos(s + [x], y) == if y in s then FirstPos(s, y) else if y == x then |s| else |s| + 1
  {
    var n := FirstPos(s + [x], y);
    if y in s {
      var m := FirstPos(s, y);
      assert (s + [x])[m] == y;
      assert (s + [x])[..m] == s[..m];
      assert y !in (s + [x])[..n];
    } else {
      if y == x { assert (s + [x])[|s|] == y; }
    }
  }

  /** `a & a`: the elements of `a` in order of first occurrence, each once. */
  function Dedup(s: seq<string>): (r: seq<string>)
    ensures forall y :: y in r <==> y in s
    ensures forall i, j :: 0 <= i < j < |r| ==> r[i] != r[j]
    ensures forall i, j :: 0 <= i < j < |r| ==> FirstPos(s, r[i]) < FirstPos(s, r[j])
  {
    if s == [] then []
    else
      var init := s[..|s| - 1];
      var x := s[|s| - 1];
      assert s == init + [x];
      var d := Dedup(init);
      DedupStep(init, x, d);
      d + (if x in init then [] else [x])
  }

  /** The order of first occurrence survives appending one element. */
  lemma DedupStep(init: seq<string>, x: string, d: seq<string>)
    requires forall y :: y in d <==> y in init
    requires forall i, j :: 0 <= i < j < |d| ==> FirstPos(init, d[i]) < FirstPos(init, d[j])
    ensures var r := d + (if x in init then [] else [x]);
      forall i, j :: 0 <= i < j < |r| ==> FirstPos(init + [x], r[i]) < FirstPos(init + [x], r[j])
  {
    var r := d + (if x in init then [] else [x]);
    forall i | 0 <= i < |d| ensures FirstPos(init + [x], d[i]) == FirstPos(init, d[i]) < |init| {
      assert d[i] in init;
      FirstPosSnoc(init, x, d[i]);
    }
    if x !in init {
      FirstPosSnoc(init, x, x);
    }
    forall i, j | 0 <= i < j < |r| ensures FirstPos(init + [x], r[i]) < FirstPos(init + [x], r[j]) {
      assert r[i] == d[i];
      if j < |d| { assert r[j] == d[j]; } else { assert r[j] == x; }
    }
  }

  /** One turn of the inner block: the gem file `g` is deleted from
      `to_add`, and its rpmized form appended unless the manifest covers
      it. */
  function FileStep(toAdd: seq<string>, sfs: seq<string>, g: string, rpmize: string -> string): seq<string> {
    RemoveAll(toAdd, g) + (if Covers(sfs, g) then [] else [rpmize(g)])
  }

  /** The inner loop over the gem files `gs`, in order. */
  function PassOver(toAdd: seq<string>, sfs: seq<string>, gs: seq<string>, rpmize: string -> string): seq<string>
  {
    if gs == [] then toAdd
    else FileStep(PassOver(toAdd, sfs, gs[..|gs| - 1], rpmize), sfs, gs[|gs| - 1], rpmize)
  }

  /** The inner loop one gem file further. */
  lemma PassOverStep(toAdd: seq<string>, sfs: seq<string>, gs: seq<string>, j: nat, rpmize: string -> string)
    requires j < |gs|
    ensures PassOver(toAdd, sfs, gs[..j + 1], rpmize) == FileStep(PassOver(toAdd, sfs, gs[..j], rpmize), sfs, gs[j], rpmize)
  {
    assert gs[..j + 1][..j] == gs[..j];
  }

  /** One turn of the outer loop, for a package with manifest `sfs`: the
      inner loop runs over `new_source.files & to_add`, which with both
      names bound to the same array is `to_add` without repetitions. */
  function Pass(toAdd: seq<string>, sfs: seq<string>, rpmize: string -> string): seq<string> {
    PassOver(toAdd, sfs, Dedup(toAdd), rpmize)
  }

  /** `to_add` after the outer loop over the packages `fs`, in the hash's
      order; the starting list is given back when there is no package. */
  function NewFiles(fs: seq<FileList>, toAdd: seq<string>, rpmize: string -> string): (r: seq<string>)
    ensures fs == [] ==> r == toAdd
  {
    if fs == [] then toAdd
    else Pass(NewFiles(fs[..|fs| - 1], toAdd, rpmize), fs[|fs| - 1].entries, rpmize)
  }

  /** `x` is the rpmized form of a gem file of `gs` that the manifest does
      not cover. */
  predicate Produced(x: string, sfs: seq<string>, gs: seq<string>, rpmize: string -> string) {
    exists g :: g in gs && !Covers(sfs, g) && x == rpmize(g)
  }

  lemma {:induction false} PassOverOrigin(toAdd: seq<string>, sfs: seq<string>, gs: seq<string>, rpmize: string -> string)
    ensures forall x :: x in PassOver(toAdd, sfs, gs, rpmize) ==>
      (x in toAdd && x !in gs) || Produced(x, sfs, gs, rpmize)
  {
    if gs != [] {
      var init := gs[..|gs| - 1];
      var g := gs[|gs| - 1];
      assert gs == init + [g];
      var before := PassOver(toAdd, sfs, init, rpmize);
      PassOverOrigin(toAdd, sfs, init, rpmize);
      FilterMembers(before, Other(g));
      forall x | x in PassOver(toAdd, sfs, gs, rpmize)
        ensures (x in toAdd && x !in gs) || Produced(x, sfs, gs, rpmize)
      {
        if x in RemoveAll(before, g) {
          if Produced(x, sfs, init, rpmize) {
            var h :| h in init && !Covers(sfs, h) && x == rpmize(h);
            assert h in gs;
          }
        } else {
          assert x == rpmize(g) && !Covers(sfs, g);
        }
      }
    }
  }

  /** Whatever a pass leaves in `to_add` is the rpmized form of a gem file
      that the package's manifest does not cover. */
  lemma PassOrigin(toAdd: seq<string>, sfs: seq<string>, rpmize: string -> string)
    ensures forall x :: x in Pass(toAdd, sfs, rpmize) ==>
      exists g :: g in toAdd && !Covers(sfs, g) && x == rpmize(g)
  {
    PassOverOrigin(toAdd, sfs, Dedup(toAdd), rpmize);
  }

  /** `rpmize` never turns one file of the list into another one of it. */
  predicate NoCollision(toAdd: seq<string>, rpmize: string -> string) {
    forall f, g :: f in toAdd && g in toAdd && f != g ==> rpmize(f) != g
  }

  /** A covered file is never left in `to_add` by the pass of the package
      that covers it. */
  lemma PassDropsCovered(toAdd: seq<string>, sfs: seq<string>, rpmize: string -> string)
    requires NoCollision(toAdd, rpmize)
    ensures forall g :: g in toAdd && Covers(sfs, g) ==> g !in Pass(toAdd, sfs, rpmize)
  {
    PassOrigin(toAdd, sfs, rpmize);
  }

  /** The rpmized forms of the files of `gs` the manifest does not cover,
      in order. */
  function Kept(gs: seq<string>, sfs: seq<string>, rpmize: string -> string): seq<string> {
    if gs == [] then []
    else
      var g := gs[|gs| - 1];
      Kept(gs[..|gs| - 1], sfs, rpmize) + (if Covers(sfs, g) then [] else [rpmize(g)])
  }

  lemma {:induction false} KeptMembers(gs: seq<string>, sfs: seq<string>, rpmize: string -> string)
    ensures forall x :: x in Kept(gs, sfs, rpmize) ==> exists g :: g in gs && x == rpmize(g)
  {
    if gs != [] {
      var init := gs[..|gs| - 1];
      KeptMembers(init, sfs, rpmize);
      assert gs == init + [gs[|gs| - 1]];
    }
  }

  function NotIn(d: seq<string>): string -> bool {
    y => y !in d
  }

  /** The elements of `s` outside `d`, in order. */
  function Without(s: seq<string>, d: seq<string>): seq<string> {
    Filter(s, NotIn(d))
  }

  /** Deleting a later gem file keeps the rpmized files so far. */
  lemma KeptAvoids(toAdd: seq<string>, sfs: seq<string>, gs: seq<string>, rpmize: string -> string)
    requires NoCollision(toAdd, rpmize)
    requires gs != [] && forall h :: h in gs ==> h in toAdd
    requires forall i, j :: 0 <= i < j < |gs| ==> gs[i] != gs[j]
    ensures RemoveAll(Kept(gs[..|gs| - 1], sfs, rpmize), gs[|gs| - 1]) == Kept(gs[..|gs| - 1], sfs, rpmize)
  {
    var init, g := gs[..|gs| - 1], gs[|gs| - 1];
    var k := Kept(init, sfs, rpmize);
    KeptMembers(init, sfs, rpmize);
    forall x | x in k ensures Other(g)(x) {
      var h :| h in init && x == rpmize(h);
      var i :| 0 <= i < |init| && init[i] == h;
      assert gs[i] == h && h != g && h in gs && g in gs;
      assert rpmize(h) != g;
    }
    FilterAll(k, Other(g));
  }

  /** Before the inner loop has passed `g`, the list holds the untouched
      files and the rpmized files so far. */
  lemma {:induction false} PassOverExact(toAdd: seq<string>, sfs: seq<string>, gs: seq<string>, rpmize: string -> string)
    requires NoCollision(toAdd, rpmize)
    requires forall g :: g in gs ==> g in toAdd
    requires forall i, j :: 0 <= i < j < |gs| ==> gs[i] != gs[j]
    ensures PassOver(toAdd, sfs, gs, rpmize) == Without(toAdd, gs) + Kept(gs, sfs, rpmize)
  {
    if gs == [] {
      FilterAll(toAdd, NotIn([]));
    } else {
      var init := gs[..|gs| - 1];
      var g := gs[|gs| - 1];
      var w, k := Without(toAdd, init), Kept(init, sfs, rpmize);
      assert PassOver(toAdd, sfs, init, rpmize) == w + k by {
        assert forall i :: 0 <= i < |init| ==> init[i] == gs[i];
        assert forall h :: h in init ==> h in gs;
        PassOverExact(toAdd, sfs, init, rpmize);
      }
      assert gs == init + [g];
      assert RemoveAll(w + k, g) == Without(toAdd, gs) + k by {
        FilterAppend(w, k, Other(g));
        FilterFilter(toAdd, NotIn(init), Other(g), NotIn(gs));
        KeptAvoids(toAdd, sfs, gs, rpmize);
      }
      ExactStep(toAdd, sfs, init, g, rpmize);
    }
  }

  /** The step of `PassOverExact`, for the last gem file `g`. */
  lemma ExactStep(toAdd: seq<string>, sfs: seq<string>, init: seq<string>, g: string, rpmize: string -> string)
    requires PassOver(toAdd, sfs, init, rpmize) == Without(toAdd, init) + Kept(init, sfs, rpmize)
    requires RemoveAll(Without(toAdd, init) + Kept(init, sfs, rpmize), g) ==
      Without(toAdd, init + [g]) + Kept(init, sfs, rpmize)
    ensures PassOver(toAdd, sfs, init + [g], rpmize) == Without(toAdd, init + [g]) + Kept(init + [g], sfs, rpmize)
  {
    var gs := init + [g];
    assert gs[..|gs| - 1] == init && gs[|gs| - 1] == g;
    var tail := if Covers(sfs, g) then [] else [rpmize(g)];
    assert PassOver(toAdd, sfs, gs, rpmize) == RemoveAll(PassOver(toAdd, sfs, init, rpmize), g) + tail;
    assert Kept(gs, sfs, rpmize) == Kept(init, sfs, rpmize) + tail;
  }

  /** With one package, `new_files` is the rpmized form of every distinct
      gem file the manifest does not cover, in order. */
  lemma OnePackage(toAdd: seq<string>, pkg: FileList, rpmize: string -> string)
    requires NoCollision(toAdd, rpmize)
    ensures NewFiles([pkg], toAdd, rpmize) == Kept(Dedup(toAdd), pkg.entries, rpmize)
  {
    assert [pkg][..0] == [];
    var d := Dedup(toAdd);
    PassOverExact(toAdd, pkg.entries, d, rpmize);
    FilterNone(toAdd, NotIn(d));
  }

  /** `rpmize` applied `n` times. */
  function RpmizeN(rpmize: string -> string, n: nat, g: string): string {
    if n == 0 then g else rpmize(RpmizeN(rpmize, n - 1, g))
  }

  /** The gem file `g` outlives every pass of `fs`: as the outer loop
      reaches the `k`-th package, `g` has been rpmized `k` times, and that
      form is not covered by the package's manifest. */
  predicate SurvivesAll(fs: seq<FileList>, g: string, rpmize: string -> string) {
    forall k :: 0 <= k < |fs| ==> !Covers(fs[k].entries, RpmizeN(rpmize, k, g))
  }

  /** Whatever the outer loop leaves in `to_add` comes from one gem file
      that every package's pass let through, rpmized once per package. */
  lemma {:induction false} NewFilesOrigin(fs: seq<FileList>, toAdd: seq<string>, rpmize: string -> string)
    ensures forall x :: x in NewFiles(fs, toAdd, rpmize) ==>
      exists g :: g in toAdd && x == RpmizeN(rpmize, |fs|, g) && SurvivesAll(fs, g, rpmize)
  {
    if fs == [] {
      forall x | x in NewFiles(fs, toAdd, rpmize)
        ensures exists g :: g in toAdd && x == RpmizeN(rpmize, |fs|, g) && SurvivesAll(fs, g, rpmize)
      {
        assert x in toAdd && x == RpmizeN(rpmize, 0, x);
      }
    } else {
      var init, last := fs[..|fs| - 1], fs[|fs| - 1];
      var before := NewFiles(init, toAdd, rpmize);
      NewFilesOrigin(init, toAdd, rpmize);
      PassOrigin(before, last.entries, rpmize);
      forall x | x in NewFiles(fs, toAdd, rpmize)
        ensures exists g :: g in toAdd && x == RpmizeN(rpmize, |fs|, g) && SurvivesAll(fs, g, rpmize)
      {
        var y :| y in before && !Covers(last.entries, y) && x == rpmize(y);
        var g :| g in toAdd && y == RpmizeN(rpmize, |init|, g) && SurvivesAll(init, g, rpmize);
        SurvivesSnoc(fs, g, rpmize);
      }
    }
  }

  lemma SurvivesSnoc(fs: seq<FileList>, g: string, rpmize: string -> string)
    requires fs != [] && SurvivesAll(fs[..|fs| - 1], g, rpmize)
    requires !Covers(fs[|fs| - 1].entries, RpmizeN(rpmize, |fs| - 1, g))
    ensures SurvivesAll(fs, g, rpmize)
  {
    var init := fs[..|fs| - 1];
    forall k | 0 <= k < |fs| ensures !Covers(fs[k].entries, RpmizeN(rpmize, k, g)) {
      if k < |init| { assert fs[k] == init[k]; }
    }
  }

  /** The outer loop tests the survivors of one package's pass, already
      rpmized, against the next package's manifest, and rpmizes them
      again: a gem file that a later package covers is left out with that
      package alone, yet survives in doubly rpmized form behind a package
      that does not cover it. */
  lemma CoveredLater(g: string, sfs: seq<string>, k1: Option<string>, k2: Option<string>,
                     rpmize: string -> string)
    requires Covers(sfs, g) && !Covers(sfs, rpmize(g))
    ensures NewFiles([FileList(k2, sfs)], [g], rpmize) == []
    ensures NewFiles([FileList(k1, []), FileList(k2, sfs)], [g], rpmize) == [rpmize(rpmize(g))]
  {
    var one: seq<FileList> := [FileList(k2, sfs)];
    var two: seq<FileList> := [FileList(k1, []), FileList(k2, sfs)];
    assert NewFiles(one, [g], rpmize) == [] by {
      assert one[..0] == [];
      OnePass(g, sfs, rpmize);
    }
    assert NewFiles(two[..1], [g], rpmize) == [rpmize(g)] by {
      assert two[..1] == [FileList(k1, [])] && two[..1][..0] == [];
      OnePass(g, [], rpmize);
    }
    OnePass(rpmize(g), sfs, rpmize);
  }

  /** A pass over a single gem file. */
  lemma OnePass(g: string, sfs: seq<string>, rpmize: string -> string)
    ensures Pass([g], sfs, rpmize) == if Covers(sfs, g) then [] else [rpmize(g)]
  {
    var d: seq<string> := [g];
    assert d[..0] == [] && d[..|d| - 1] == [];
    assert Dedup(d) == d;
    assert PassOver(d, sfs, [], rpmize) == d;
    assert RemoveAll(d, g) == [] by {
      assert !Other(g)(g);
      assert Filter(d[..0], Other(g)) == [];
    }
  }

  /** Two different names are both kept, in order. */
  lemma DedupPair(f: string, g: string)
    requires f != g
    ensures Dedup([f, g]) == [f, g]
  {
    var fg: seq<string> := [f, g];
    assert fg[..1] == [f] && [f][..0] == [];
    assert Dedup([f]) == [f];
  }

  /** Deleting `f` leaves the other element. */
  lemma RemoveFirst(f: string, g: string)
    requires f != g
    ensures RemoveAll([f, g], f) == [g]
  {
    var s: seq<string> := [f, g];
    assert s[..1] == [f] && s[..1][..0] == [];
    assert !Other(f)(f) && Other(f)(g);
    assert Filter(s[..1], Other(f)) == [];
  }

  /** `delete` removes every copy, not just the first. */
  lemma RemoveBoth(g: string)
    ensures RemoveAll([g, g], g) == []
  {
    var s: seq<string> := [g, g];
    assert s[..1] == [g] && s[..1][..0] == [];
    assert !Other(g)(g);
    assert Filter(s[..1], Other(g)) == [];
  }

  /** When `rpmize` maps a file `f` onto a later file `g` of the list, the
      later turn deletes `f`'s rpmized form again: of two files the
      manifest does not cover, one line is left where `Kept` has two. */
  lemma PassCollision(f: string, g: string, sfs: seq<string>, rpmize: string -> string)
    requires f != g && rpmize(f) == g
    requires !Covers(sfs, f) && !Covers(sfs, g)
    ensures Kept(Dedup([f, g]), sfs, rpmize) == [g, rpmize(g)]
    ensures Pass([f, g], sfs, rpmize) == [rpmize(g)]
  {
    DedupPair(f, g);
    KeptPair(f, g, sfs, rpmize);
    PassOverPair(f, g, sfs, rpmize);
  }

  lemma KeptPair(f: string, g: string, sfs: seq<string>, rpmize: string -> string)
    requires rpmize(f) == g && !Covers(sfs, f) && !Covers(sfs, g)
    ensures Kept([f, g], sfs, rpmize) == [g, rpmize(g)]
  {
    var d: seq<string> := [f, g];
    assert d[..1] == [f] && d[..1][..0] == [];
    assert Kept([], sfs, rpmize) == [];
    assert Kept([f], sfs, rpmize) == [g];
  }

  lemma PassOverPair(f: string, g: string, sfs: seq<string>, rpmize: string -> string)
    requires f != g && rpmize(f) == g && !Covers(sfs, f) && !Covers(sfs, g)
    ensures PassOver([f, g], sfs, [f, g], rpmize) == [rpmize(g)]
  {
    var d: seq<string> := [f, g];
    assert d[..1] == [f] && d[..1][..0] == [];
    assert PassOver(d, sfs, d[..1], rpmize) == [g, g] by {
      RemoveFirst(f, g);
      assert PassOver(d, sfs, [], rpmize) == d;
    }
    RemoveBoth(g);
  }

  // ---------------------------------------------------------------------
  // update_metadata_from

  /** The release `update_metadata_from` sets. */
  const Release := "1%{?dist}"

  /** The first line of the heredoc: after `* `, the date, the author and
      the global version (`stamp`), then the release. */
  function EntryHeader(stamp: string): string {
    "* " + stamp + "-" + Release + "\n"
  }

  function UpdateLine(version: string): string {
    "- Update to version " + version
  }

  /** The heredoc entry after `rstrip`. */
  function ChangelogEntry(stamp: string, version: string): string {
    RStrip(EntryHeader(stamp) + UpdateLine(version) + "\n")
  }

  /** The entry is the header line and a last line announcing the version;
      `rstrip` takes only white space from the end of the version. */
  lemma ChangelogEntryLines(stamp: string, version: string)
    ensures ChangelogEntry(stamp, version) == EntryHeader(stamp) + RStrip(UpdateLine(version))
    ensures version != [] && !IsStripChar(version[|version| - 1]) ==>
      ChangelogEntry(stamp, version) == EntryHeader(stamp) + UpdateLine(version)
  {
    var head, last := EntryHeader(stamp), UpdateLine(version);
    assert head + last + "\n" == head + (last + "\n");
    assert (last + "\n")[0] == '-';
    RStripAppend(head, last + "\n");
    RStripTrailing(last, "\n");
    if version != [] && !IsStripChar(version[|version| - 1]) {
      assert last[|last| - 1] == version[|version| - 1];
      RStripPadded(last, []);
      assert last + [] == last;
    }
  }

  // ---------------------------------------------------------------------
  // update_to

  /** The metadata after `update_to` with a gem of the given version,
      dependencies and files. */
  function Updated(m: Metadata, version: string, deps: seq<string>, devDeps: seq<string>,
                   files: seq<string>, rpmize: string -> string, stamp: string): (r: Metadata)
    ensures r.contents == m.contents && r.gemName == m.gemName && r.files == m.files
    ensures r.changelog == m.changelog
    ensures r.reqs.Some? && r.buildReqs.Some? && r.newFiles.Some?
    ensures r.version == Some(version) && r.release == Some(Release)
    ensures |r.changelogEntries| == |m.changelogEntries| + 1 && r.changelogEntries[1..] == m.changelogEntries
    ensures r.changelogEntries[0] == ChangelogEntry(stamp, version)
  {
    m.(reqs := Some(RebuildDeps(m.reqs, deps)),
       buildReqs := Some(RebuildDeps(m.buildReqs, devDeps)),
       newFiles := Some(NewFiles(m.files, files, rpmize)),
       version := Some(version),
       release := Some(Release),
       changelogEntries := [ChangelogEntry(stamp, version)] + m.changelogEntries)
  }
}
