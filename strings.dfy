/** The string operations the two programs rely on, over `seq<char>`:
    `IndexOf` and `Split` for the parser, and ordinal ordering with
    `SortDistinct` for `Distinct().OrderBy(v => v)`. */
module Strings {

  /** Position of the first `c` in `s`, or -1 when `s` has none (`String.IndexOf(char)`). */
  function IndexOf(s: string, c: char): (k: int)
    ensures -1 <= k < |s|
    ensures k == -1 <==> c !in s
    ensures 0 <= k ==> s[k] == c && forall i :: 0 <= i < k ==> s[i] != c
  {
    if |s| == 0 then -1
    else if s[0] == c then 0
    else
      var k := IndexOf(s[1..], c);
      if k < 0 then -1 else k + 1
  }

  /** Glues `parts` back together with `sep` between consecutive parts (`String.Join`). */
  function Join(parts: seq<string>, sep: char): string
  {
    if |parts| == 0 then ""
    else if |parts| == 1 then parts[0]
    else parts[0] + [sep] + Join(parts[1..], sep)
  }

  /** All `sep`-separated fields of `s`, empty ones included (`String.Split(char)`):
      there is always at least one field, and `SplitOne` shows that there is
      exactly one when `s` holds no `sep`; `SplitFields` shows that no field holds `sep`, and `JoinSplit`
      and `SplitJoin` that splitting and joining are inverse. */
  function Split(s: string, sep: char): (r: seq<string>)
    ensures |r| >= 1
    decreases |s|
  {
    var k := IndexOf(s, sep);
    if k < 0 then [s]
    else [s[..k]] + Split(s[k + 1..], sep)
  }

  /** A text splits into a single field exactly when it holds no separator. */
  lemma SplitOne(s: string, sep: char)
    ensures |Split(s, sep)| == 1 <==> sep !in s
  {
    if sep in s {
      SplitAt(s, sep, IndexOf(s, sep));
    }
  }

  /** No field holds the separator. */
  lemma {:induction false} SplitFields(s: string, sep: char)
    ensures forall i :: 0 <= i < |Split(s, sep)| ==> sep !in Split(s, sep)[i]
    decreases |s|
  {
    var k := IndexOf(s, sep);
    if k >= 0 {
      SplitFields(s[k + 1..], sep);
      SplitAt(s, sep, k);
      HeadTail(s[..k], Split(s[k + 1..], sep), sep);
    }
  }

  /** A field in front of fields that avoid `sep` keeps them avoiding it when it does too. */
  lemma HeadTail(first: string, rest: seq<string>, sep: char)
    requires sep !in first
    requires forall i :: 0 <= i < |rest| ==> sep !in rest[i]
    ensures forall i :: 0 <= i < |[first] + rest| ==> sep !in ([first] + rest)[i]
  {
    forall i | 1 <= i < |[first] + rest|
      ensures sep !in ([first] + rest)[i]
    {
      assert ([first] + rest)[i] == rest[i - 1];
    }
  }

  /** Joining the fields of `s` gives `s` back. */
  lemma {:induction false} JoinSplit(s: string, sep: char)
    ensures Join(Split(s, sep), sep) == s
    decreases |s|
  {
    var k := IndexOf(s, sep);
    if k < 0 {
      assert Split(s, sep) == [s];
    } else {
      JoinSplit(s[k + 1..], sep);
      JoinSplitStep(s, sep, k);
    }
  }

  /** The inductive step of `JoinSplit`: the first field, the separator, and
      the joined remaining fields make up `s`. */
  lemma JoinSplitStep(s: string, sep: char, k: nat)
    requires k == IndexOf(s, sep)
    requires Join(Split(s[k + 1..], sep), sep) == s[k + 1..]
    ensures Join(Split(s, sep), sep) == s
  {
    var r := Split(s, sep);
    assert r[0] == s[..k] && r[1..] == Split(s[k + 1..], sep);
    JoinRebuild(r, s, k, sep);
  }

  /** Fields whose first is the text before `k` and whose rest joins to the
      text after `k` join to the whole text, when `k` holds the separator. */
  lemma JoinRebuild(r: seq<string>, s: string, k: nat, sep: char)
    requires k < |s| && s[k] == sep && |r| >= 2
    requires r[0] == s[..k] && Join(r[1..], sep) == s[k + 1..]
    ensures Join(r, sep) == s
  {
    Around(s, k);
  }

  /** A text is its part before `k`, its `k`th character, and its part after `k`. */
  lemma Around(s: string, k: nat)
    requires k < |s|
    ensures s[..k] + [s[k]] + s[k + 1..] == s
  {
  }

  /** Three parts joined with a separator. */
  lemma JoinThree(a: string, b: string, c: string, sep: char)
    ensures Join([a, b, c], sep) == a + [sep] + b + [sep] + c
  {
    assert [a, b, c][1..] == [b, c];
    assert [b, c][1..] == [c];
    assert Join([b, c], sep) == b + [sep] + c;
    assert a + [sep] + (b + [sep] + c) == a + [sep] + b + [sep] + c;
  }

  /** `IndexOf` finds the position of a separator that has none before it. */
  lemma {:induction false} IndexOfAt(s: string, c: char, k: nat)
    requires k < |s| && s[k] == c && forall i :: 0 <= i < k ==> s[i] != c
    ensures IndexOf(s, c) == k
  {
    if k > 0 {
      assert s[1..][k - 1] == c;
      IndexOfAt(s[1..], c, k - 1);
    }
  }

  /** A text whose first separator is at `k` splits into the text before `k`
      followed by the fields after `k`. */
  lemma SplitAt(s: string, sep: char, k: nat)
    requires k < |s| && s[k] == sep && forall i :: 0 <= i < k ==> s[i] != sep
    ensures Split(s, sep) == [s[..k]] + Split(s[k + 1..], sep)
  {
    IndexOfAt(s, sep, k);
  }

  /** Splitting undoes joining when no part holds the separator and there is a part. */
  lemma {:induction false} SplitJoin(parts: seq<string>, sep: char)
    requires |parts| >= 1
    requires forall i :: 0 <= i < |parts| ==> sep !in parts[i]
    ensures Split(Join(parts, sep), sep) == parts
    decreases |parts|
  {
    if |parts| == 1 {
      assert Join(parts, sep) == parts[0];
    } else {
      var p, tail := parts[0], Join(parts[1..], sep);
      var s := p + [sep] + tail;
      assert Join(parts, sep) == s;
      assert s[..|p|] == p && s[|p| + 1..] == tail;
      assert forall i :: 0 <= i < |p| ==> s[i] == p[i];
      SplitAt(s, sep, |p|);
      SplitJoin(parts[1..], sep);
      PrependTail(parts);
    }
  }

  /** A non-empty sequence is its head followed by its tail. */
  lemma PrependTail(parts: seq<string>)
    requires |parts| >= 1
    ensures [parts[0]] + parts[1..] == parts
  {
  }

  /** The first field runs up to the first separator, or is all of `s`. */
  lemma FirstOfSplit(s: string, sep: char)
    ensures Split(s, sep)[0] == if sep in s then s[..IndexOf(s, sep)] else s
  {
    if sep in s {
      SplitAt(s, sep, IndexOf(s, sep));
      Head(s[..IndexOf(s, sep)], Split(s[IndexOf(s, sep) + 1..], sep));
    } else {
      assert Split(s, sep) == [s];
    }
  }

  /** The first two fields of a text holding a separator: the text before
      it, and the text after it up to the next separator or the end. */
  lemma FieldsLayout(s: string, sep: char)
    requires sep in s
    ensures var k := IndexOf(s, sep);
      var t := s[k + 1..];
      && |Split(s, sep)| >= 2
      && Split(s, sep)[0] == s[..k]
      && Split(s, sep)[1] == if sep in t then t[..IndexOf(t, sep)] else t
  {
    var k := IndexOf(s, sep);
    var t := s[k + 1..];
    SplitAt(s, sep, k);
    Head(s[..k], Split(t, sep));
    FirstOfSplit(t, sep);
  }

  /** Indexing a sequence built from a head and a tail. */
  lemma Head(a: string, r: seq<string>)
    requires |r| >= 1
    ensures |[a] + r| >= 2 && ([a] + r)[0] == a && ([a] + r)[1] == r[0]
  {
  }

  /** Every character of the first two fields of a text with a separator
      occurs in the text. */
  lemma FieldsWithin(s: string, sep: char)
    requires sep in s
    ensures |Split(s, sep)| >= 2
    ensures forall x :: x in Split(s, sep)[0] ==> x in s
    ensures forall x :: x in Split(s, sep)[1] ==> x in s
  {
    FieldsLayout(s, sep);
    var k := IndexOf(s, sep);
    var t := s[k + 1..];
    PrefixWithin(s, k);
    SuffixWithin(s, k + 1);
    if sep in t {
      PrefixWithin(t, IndexOf(t, sep));
    }
  }

  /** A prefix holds only characters of the whole text. */
  lemma PrefixWithin(s: string, k: nat)
    requires k <= |s|
    ensures forall x :: x in s[..k] ==> x in s
  {
    forall x | x in s[..k]
      ensures x in s
    {
      var i :| 0 <= i < k && s[..k][i] == x;
      assert s[i] == x;
    }
  }

  /** A suffix holds only characters of the whole text. */
  lemma SuffixWithin(s: string, k: nat)
    requires k <= |s|
    ensures forall x :: x in s[k..] ==> x in s
  {
    forall x | x in s[k..]
      ensures x in s
    {
      var i :| 0 <= i < |s| - k && s[k..][i] == x;
      assert s[k + i] == x;
    }
  }

  /** Ordinal (code-unit by code-unit) strict order on strings; a proper
      prefix comes first. */
  predicate Less(a: string, b: string)
    decreases |a|
  {
    if |a| == 0 then |b| > 0
    else if |b| == 0 then false
    else if a[0] != b[0] then a[0] < b[0]
    else Less(a[1..], b[1..])
  }

  lemma {:induction false} LessIrreflexive(a: string)
    ensures !Less(a, a)
    decreases |a|
  {
    if |a| > 0 { LessIrreflexive(a[1..]); }
  }

  lemma {:induction false} LessAsymmetric(a: string, b: string)
    ensures Less(a, b) ==> !Less(b, a)
    decreases |a|
  {
    if |a| > 0 && |b| > 0 && a[0] == b[0] { LessAsymmetric(a[1..], b[1..]); }
  }

  lemma {:induction false} LessTransitive(a: string, b: string, c: string)
    requires Less(a, b) && Less(b, c)
    ensures Less(a, c)
    decreases |a|
  {
    if |a| > 0 && a[0] == b[0] && b[0] == c[0] {
      LessTransitive(a[1..], b[1..], c[1..]);
    }
  }

  lemma {:induction false} LessTotal(a: string, b: string)
    requires a != b
    ensures Less(a, b) || Less(b, a)
    decreases |a|
  {
    if |a| > 0 && |b| > 0 && a[0] == b[0] {
      assert a == [a[0]] + a[1..] && b == [b[0]] + b[1..];
      LessTotal(a[1..], b[1..]);
    }
  }

  /** Strictly increasing, hence also free of duplicates. */
  predicate StrictlySorted(s: seq<string>)
  {
    forall i, j :: 0 <= i < j < |s| ==> Less(s[i], s[j])
  }

  /** `x` put into its place in the strictly sorted `s`, unless it is already there. */
  function Insert(x: string, s: seq<string>): (r: seq<string>)
    requires StrictlySorted(s)
    ensures StrictlySorted(r)
    ensures forall y :: y in r <==> y == x || y in s
  {
    if |s| == 0 then [x]
    else if x == s[0] then s
    else if Less(x, s[0]) then
      assert forall j :: 0 < j < |s| ==> Less(x, s[j]) by {
        forall j | 0 < j < |s| ensures Less(x, s[j]) { LessTransitive(x, s[0], s[j]); }
      }
      [x] + s
    else
      LessTotal(x, s[0]);
      var tail := Insert(x, s[1..]);
      assert forall y :: y in tail ==> Less(s[0], y);
      [s[0]] + tail
  }

  /** The distinct elements of `s` in ascending ordinal order (`Distinct().OrderBy(v => v)`). */
  function SortDistinct(s: seq<string>): (r: seq<string>)
    ensures StrictlySorted(r)
    ensures forall y :: y in r <==> y in s
  {
    if |s| == 0 then []
    else
      var r := Insert(s[|s| - 1], SortDistinct(s[..|s| - 1]));
      assert forall y :: y in s <==> y in s[..|s| - 1] || y == s[|s| - 1] by {
        assert s == s[..|s| - 1] + [s[|s| - 1]];
      }
      r
  }

  /** A strictly sorted sequence is determined by its elements, so the sorted
      distinct output does not depend on how its input was enumerated. */
  lemma {:induction false} StrictlySortedUnique(a: seq<string>, b: seq<string>)
    requires StrictlySorted(a) && StrictlySorted(b)
    requires forall y :: y in a <==> y in b
    ensures a == b
    decreases |a|
  {
    assert |a| > 0 ==> a[0] in b;
    assert |b| > 0 ==> b[0] in a;
    if |a| > 0 {
      var i :| 0 <= i < |a| && a[i] == b[0];
      var j :| 0 <= j < |b| && b[j] == a[0];
      LessAsymmetric(a[0], b[0]);
      assert a[0] == b[0];
      LessIrreflexive(a[0]);
      forall y ensures y in a[1..] <==> y in b[1..] {
        if y in a[1..] {
          var k :| 0 <= k < |a| - 1 && a[1..][k] == y;
          assert Less(a[0], a[k + 1]);
          assert y in b;
          var m :| 0 <= m < |b| && b[m] == y;
          assert m != 0;
        }
        if y in b[1..] {
          var k :| 0 <= k < |b| - 1 && b[1..][k] == y;
          assert Less(b[0], b[k + 1]);
          assert y in a;
          var m :| 0 <= m < |a| && a[m] == y;
          assert m != 0;
        }
      }
      StrictlySortedUnique(a[1..], b[1..]);
      assert a == [a[0]] + a[1..] && b == [b[0]] + b[1..];
    }
  }
}
