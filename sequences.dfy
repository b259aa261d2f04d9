/** Generic facts about sequences, stated for an arbitrary predicate so that
    they are proved once and used for each pattern. */
module Sequences {

  /** Index of the first element satisfying `p`, or `|s|` when there is
      none. */
  function FirstIndex<T>(s: seq<T>, p: T -> bool): (n: nat)
    ensures n <= |s|
    ensures forall i :: 0 <= i < n ==> !p(s[i])
    ensures n < |s| ==> p(s[n])
  {
    if s == [] then 0
    else if p(s[0]) then 0
    else 1 + FirstIndex(s[1..], p)
  }

  lemma FirstIndexSnoc<T>(s: seq<T>, x: T, p: T -> bool)
    ensures FirstIndex(s + [x], p) ==
      if FirstIndex(s, p) < |s| || p(x) then FirstIndex(s, p) else |s| + 1
  {
    var n := FirstIndex(s, p);
    var m := FirstIndex(s + [x], p);
    assert forall i :: 0 <= i < |s| ==> (s + [x])[i] == s[i];
    if n < |s| {
      assert p((s + [x])[n]);
      assert m == n;
    } else if p(x) {
      assert p((s + [x])[|s|]);
    }
  }

  /** The images under `f` of the elements satisfying `p`, in order. */
  function Collect<T, U>(s: seq<T>, p: T -> bool, f: T -> U): seq<U> {
    if s == [] then []
    else Collect(s[..|s| - 1], p, f) + (if p(s[|s| - 1]) then [f(s[|s| - 1])] else [])
  }

  lemma CollectSnoc<T, U>(s: seq<T>, x: T, p: T -> bool, f: T -> U)
    ensures Collect(s + [x], p, f) == Collect(s, p, f) + (if p(x) then [f(x)] else [])
  {
    assert (s + [x])[..|s|] == s;
  }

  /** What `Collect` keeps from a prefix cut at the first element satisfying
      `q`, when one more element is added. */
  lemma CollectBeforeSnoc<T, U>(s: seq<T>, x: T, q: T -> bool, p: T -> bool, f: T -> U)
    ensures Collect((s + [x])[..FirstIndex(s + [x], q)], p, f) ==
      if FirstIndex(s, q) < |s| || q(x) then Collect(s[..FirstIndex(s, q)], p, f)
      else Collect(s[..FirstIndex(s, q)], p, f) + (if p(x) then [f(x)] else [])
  {
    FirstIndexSnoc(s, x, q);
    var n := FirstIndex(s, q);
    if n < |s| || q(x) {
      TakeOfAppend(s, [x], n);
    } else {
      assert (s + [x])[..|s| + 1] == s + [x] && s[..n] == s;
      CollectSnoc(s, x, p, f);
    }
  }

  /** A prefix of `s + t` no longer than `s` is a prefix of `s`. */
  lemma TakeOfAppend<T>(s: seq<T>, t: seq<T>, n: nat)
    requires n <= |s|
    ensures (s + t)[..n] == s[..n]
  {
  }

  /** The elements satisfying `p`, in order. */
  function Filter<T>(s: seq<T>, p: T -> bool): seq<T> {
    if s == [] then []
    else Filter(s[..|s| - 1], p) + (if p(s[|s| - 1]) then [s[|s| - 1]] else [])
  }

  lemma FilterSnoc<T>(s: seq<T>, x: T, p: T -> bool)
    ensures Filter(s + [x], p) == Filter(s, p) + (if p(x) then [x] else [])
  {
    assert (s + [x])[..|s|] == s;
  }

  lemma {:induction false} FilterMembers<T>(s: seq<T>, p: T -> bool)
    ensures forall x :: x in Filter(s, p) <==> x in s && p(x)
  {
    if s != [] {
      FilterMembers(s[..|s| - 1], p);
      assert s == s[..|s| - 1] + [s[|s| - 1]];
    }
  }

  lemma {:induction false} FilterAppend<T>(a: seq<T>, b: seq<T>, p: T -> bool)
    ensures Filter(a + b, p) == Filter(a, p) + Filter(b, p)
    decreases |b|
  {
    if b == [] {
      assert a + b == a;
    } else {
      var init := b[..|b| - 1];
      FilterAppend(a, init, p);
      assert (a + b)[..|a + b| - 1] == a + init;
    }
  }

  /** Nothing passes when no element satisfies `p`. */
  lemma FilterNone<T>(s: seq<T>, p: T -> bool)
    requires forall x :: x in s ==> !p(x)
    ensures Filter(s, p) == []
  {
    forall i | 0 <= i < |s| ensures !p(s[i]) {
      assert s[i] in s;
    }
    FilterNoneAt(s, p);
  }

  lemma {:induction false} FilterNoneAt<T>(s: seq<T>, p: T -> bool)
    requires forall i :: 0 <= i < |s| ==> !p(s[i])
    ensures Filter(s, p) == []
  {
    if s != [] {
      var init := s[..|s| - 1];
      assert forall i :: 0 <= i < |init| ==> init[i] == s[i];
      FilterNoneAt(init, p);
    }
  }

  /** Everything passes when every element satisfies `p`. */
  lemma FilterAll<T>(s: seq<T>, p: T -> bool)
    requires forall x :: x in s ==> p(x)
    ensures Filter(s, p) == s
  {
    forall i | 0 <= i < |s| ensures p(s[i]) {
      assert s[i] in s;
    }
    FilterAllAt(s, p);
  }

  lemma {:induction false} FilterAllAt<T>(s: seq<T>, p: T -> bool)
    requires forall i :: 0 <= i < |s| ==> p(s[i])
    ensures Filter(s, p) == s
  {
    if s != [] {
      var init := s[..|s| - 1];
      assert forall i :: 0 <= i < |init| ==> init[i] == s[i];
      FilterAllAt(init, p);
      assert init + [s[|s| - 1]] == s;
    }
  }

  /** Three filters that between them take each element exactly once
      split the sequence: nothing is lost and nothing duplicated. */
  lemma {:induction false} FilterPartition<T>(s: seq<T>, p: T -> bool, q: T -> bool, r: T -> bool)
    requires forall x :: x in s ==> (p(x) || q(x) || r(x))
    requires forall x :: x in s ==> !(p(x) && q(x)) && !(p(x) && r(x)) && !(q(x) && r(x))
    ensures multiset(Filter(s, p)) + multiset(Filter(s, q)) + multiset(Filter(s, r)) == multiset(s)
  {
    if s != [] {
      var init := s[..|s| - 1];
      var x := s[|s| - 1];
      assert s == init + [x];
      assert x in s && forall y :: y in init ==> y in s;
      FilterPartition(init, p, q, r);
      PartitionSnoc(init, x, p, q, r);
    }
  }

  /** The step of `FilterPartition`: `x` goes to exactly one of the three. */
  lemma PartitionSnoc<T>(init: seq<T>, x: T, p: T -> bool, q: T -> bool, r: T -> bool)
    requires p(x) || q(x) || r(x)
    requires !(p(x) && q(x)) && !(p(x) && r(x)) && !(q(x) && r(x))
    requires multiset(Filter(init, p)) + multiset(Filter(init, q)) + multiset(Filter(init, r)) == multiset(init)
    ensures var s := init + [x];
      multiset(Filter(s, p)) + multiset(Filter(s, q)) + multiset(Filter(s, r)) == multiset(s)
  {
    var s := init + [x];
    var mx := multiset{x};
    var a, b, c := multiset(Filter(init, p)), multiset(Filter(init, q)), multiset(Filter(init, r));
    var a', b', c' := multiset(Filter(s, p)), multiset(Filter(s, q)), multiset(Filter(s, r));
    FilterSnoc(init, x, p);
    FilterSnoc(init, x, q);
    FilterSnoc(init, x, r);
    assert multiset(s) == multiset(init) + mx;
    if p(x) {
      assert a' == a + mx && b' == b && c' == c;
    } else if q(x) {
      assert a' == a && b' == b + mx && c' == c;
    } else {
      assert a' == a && b' == b && c' == c + mx;
    }
    AddToOne(a, b, c, a', b', c', mx);
  }

  /** Adding `mx` to one of three multisets adds it to their sum. */
  lemma AddToOne<T>(a: multiset<T>, b: multiset<T>, c: multiset<T>, a': multiset<T>, b': multiset<T>,
                    c': multiset<T>, mx: multiset<T>)
    requires (a' == a + mx && b' == b && c' == c) || (a' == a && b' == b + mx && c' == c) ||
             (a' == a && b' == b && c' == c + mx)
    ensures a' + b' + c' == a + b + c + mx
  {
  }

  /** Two filters in a row are one filter by the conjunction. */
  lemma {:induction false} FilterFilter<T>(s: seq<T>, p: T -> bool, q: T -> bool, pq: T -> bool)
    requires forall x :: x in s ==> (pq(x) <==> p(x) && q(x))
    ensures Filter(Filter(s, p), q) == Filter(s, pq)
  {
    if s != [] {
      var init := s[..|s| - 1];
      var x := s[|s| - 1];
      assert x in s;
      assert forall y :: y in init ==> y in s;
      FilterFilter(init, p, q, pq);
      assert Filter(s, pq) == Filter(init, pq) + (if pq(x) then [x] else []);
      if p(x) {
        assert Filter(s, p) == Filter(init, p) + [x];
        FilterSnoc(Filter(init, p), x, q);
      } else {
        assert Filter(s, p) == Filter(init, p);
      }
    }
  }
}
