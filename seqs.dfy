/** `FilterMap`, the shape of a LINQ `Where(...).Select(...)` query, and the
    facts about it that do not depend on the filter. */
module Seqs {
  import opened Wrappers

  /** The `Some` values `f` gives for the elements of `s`, in order. */
  function FilterMap<A, B>(f: A -> Option<B>, s: seq<A>): (r: seq<B>)
    ensures |r| <= |s|
  {
    if |s| == 0 then []
    else (if f(s[0]).Some? then [f(s[0]).value] else []) + FilterMap(f, s[1..])
  }

  /** A value comes out exactly when some element maps to it. */
  lemma {:induction false} FilterMapMembers<A, B>(f: A -> Option<B>, s: seq<A>, y: B)
    ensures y in FilterMap(f, s) <==> exists i :: 0 <= i < |s| && f(s[i]) == Some(y)
    decreases |s|
  {
    if |s| > 0 {
      FilterMapMembers(f, s[1..], y);
      if y in FilterMap(f, s[1..]) {
        var i :| 0 <= i < |s| - 1 && f(s[1..][i]) == Some(y);
        assert s[i + 1] == s[1..][i];
      }
      if exists i :: 0 <= i < |s| && f(s[i]) == Some(y) {
        var i :| 0 <= i < |s| && f(s[i]) == Some(y);
        if i > 0 { assert s[1..][i - 1] == s[i]; }
      }
    }
  }

  /** `FilterMap` distributes over concatenation. */
  lemma {:induction false} FilterMapAppend<A, B>(f: A -> Option<B>, a: seq<A>, b: seq<A>)
    ensures FilterMap(f, a + b) == FilterMap(f, a) + FilterMap(f, b)
    decreases |a|
  {
    if |a| > 0 {
      assert (a + b)[1..] == a[1..] + b;
      FilterMapAppend(f, a[1..], b);
    } else {
      assert a + b == b;
    }
  }

  /** Taking one element out of the input takes its value (if any) out of the output. */
  lemma FilterMapRemove<A, B>(f: A -> Option<B>, s: seq<A>, j: nat)
    requires j < |s|
    ensures multiset(FilterMap(f, s)) == multiset(FilterMap(f, [s[j]])) + multiset(FilterMap(f, s[..j] + s[j + 1..]))
  {
    var front, mid, back := s[..j], [s[j]], s[j + 1..];
    Decompose(s, j);
    FilterMapAppend(f, front, mid + back);
    FilterMapAppend(f, mid, back);
    FilterMapAppend(f, front, back);
    var x, y, z := FilterMap(f, front), FilterMap(f, mid), FilterMap(f, back);
    calc {
      multiset(FilterMap(f, s));
      multiset(x + (y + z));
      multiset(x) + multiset(y) + multiset(z);
      multiset(y) + multiset(x + z);
      multiset(y) + multiset(FilterMap(f, front + back));
    }
  }

  /** `s` is its elements before `j`, then `s[j]`, then the rest. */
  lemma Decompose<A>(s: seq<A>, j: nat)
    requires j < |s|
    ensures s == s[..j] + ([s[j]] + s[j + 1..])
  {
  }

  /** Reordering the input only reorders the output. */
  lemma {:induction false} FilterMapPermutation<A, B>(f: A -> Option<B>, a: seq<A>, b: seq<A>)
    requires multiset(a) == multiset(b)
    ensures multiset(FilterMap(f, a)) == multiset(FilterMap(f, b))
    decreases |a|
  {
    if |a| > 0 {
      var x := a[0];
      assert x in multiset(b);
      var j :| 0 <= j < |b| && b[j] == x;
      var b' := b[..j] + b[j + 1..];
      assert b == b[..j] + [x] + b[j + 1..];
      assert a == [x] + a[1..];
      assert multiset(b') == multiset(b) - multiset{x};
      assert multiset(a[1..]) == multiset(a) - multiset{x};
      FilterMapPermutation(f, a[1..], b');
      FilterMapRemove(f, b, j);
      FilterMapRemove(f, a, 0);
      assert a[..0] + a[1..] == a[1..];
    } else {
      assert b == [];
    }
  }
}
