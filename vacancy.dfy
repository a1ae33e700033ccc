/** The vacancy detector `FindVacancies`: every proper prefix of an entry's
    code, down to a floor of 3 letters for a three-character word and 4
    otherwise, that no entry has as its code is a vacant code; the result is
    the distinct vacant codes in ascending order. */
module Vacancy {
  import opened Strings
  import opened Entries

  /** The shortest prefix examined for an entry: 3 for a three-character word, 4 otherwise. */
  function Floor(e: Entry): nat
  {
    if |e.word| == 3 then 3 else 4
  }

  /** Some entry has exactly the code `c`; the program tests the negation,
      `entries.All(e => e.code != c)`. */
  predicate Occupied(entries: seq<Entry>, c: string)
  {
    exists e :: e in entries && e.code == c
  }

  /** `v` is a vacancy that entry `e` exposes: a prefix of `e`'s code, at
      least as long as `e`'s floor and shorter than the code, that no entry
      has as its code. */
  predicate Exposes(entries: seq<Entry>, e: Entry, v: string)
  {
    Floor(e) <= |v| < |e.code| && v <= e.code && !Occupied(entries, v)
  }

  /** `v` is a vacant code of the dictionary: some entry exposes it. */
  predicate IsVacancy(entries: seq<Entry>, v: string)
  {
    exists e :: e in entries && Exposes(entries, e, v)
  }

  /** The vacancies the inner loop finds for `code` while its prefix length
      runs from `top` down to `i`, in the order it finds them. */
  function Probe(entries: seq<Entry>, code: string, top: int, i: int): seq<string>
    requires top < |code| && 0 <= i
    decreases top - i
  {
    if i > top then []
    else Probe(entries, code, top, i + 1) + (if Occupied(entries, code[..i]) then [] else [code[..i]])
  }

  /** The vacancies entry `e` contributes: prefix lengths from one less than
      its code down to its floor. */
  function Contribution(entries: seq<Entry>, e: Entry): seq<string>
  {
    Probe(entries, e.code, |e.code| - 1, Floor(e))
  }

  /** The bag of vacancies after the first `n` entries have been visited. */
  function Collected(entries: seq<Entry>, n: nat): seq<string>
    requires n <= |entries|
  {
    if n == 0 then [] else Collected(entries, n - 1) + Contribution(entries, entries[n - 1])
  }

  /** The output of `FindVacancies`: the collected vacancies, distinct and sorted. */
  function Vacancies(entries: seq<Entry>): seq<string>
  {
    SortDistinct(Collected(entries, |entries|))
  }

  /** The probe finds exactly the unoccupied prefixes of `code` whose length lies in `i..top`. */
  lemma {:induction false} ProbeMembers(entries: seq<Entry>, code: string, top: int, i: int, v: string)
    requires top < |code| && 0 <= i
    ensures v in Probe(entries, code, top, i) <==> i <= |v| <= top && v <= code && !Occupied(entries, v)
    decreases top - i
  {
    if i <= top {
      ProbeMembers(entries, code, top, i + 1, v);
      if |v| == i && v <= code {
        assert v == code[..i];
      }
    }
  }

  /** An entry contributes exactly the vacancies it exposes. */
  lemma ContributionMembers(entries: seq<Entry>, e: Entry, v: string)
    ensures v in Contribution(entries, e) <==> Exposes(entries, e, v)
  {
    ProbeMembers(entries, e.code, |e.code| - 1, Floor(e), v);
  }

  /** A code no longer than its entry's floor contributes nothing. */
  lemma ShortCodeContributesNothing(entries: seq<Entry>, e: Entry)
    requires |e.code| <= Floor(e)
    ensures Contribution(entries, e) == []
  {
  }

  /** The bag holds exactly the vacancies some visited entry exposes. */
  lemma {:induction false} CollectedMembers(entries: seq<Entry>, n: nat, v: string)
    requires n <= |entries|
    ensures v in Collected(entries, n) <==> exists m :: 0 <= m < n && Exposes(entries, entries[m], v)
  {
    if n > 0 {
      CollectedMembers(entries, n - 1, v);
      ContributionMembers(entries, entries[n - 1], v);
    }
  }

  /** `Vacancies` is sorted without duplicates and holds exactly the vacant
      codes: each is a prefix of some entry's code between that entry's floor
      and its full length, and none is the code of any entry. */
  lemma VacanciesMembers(entries: seq<Entry>)
    ensures StrictlySorted(Vacancies(entries))
    ensures forall v :: v in Vacancies(entries) <==> IsVacancy(entries, v)
    ensures forall v, e :: v in Vacancies(entries) && e in entries ==> e.code != v
  {
    forall v
      ensures v in Vacancies(entries) <==> IsVacancy(entries, v)
    {
      CollectedMembers(entries, |entries|, v);
      if IsVacancy(entries, v) {
        var e :| e in entries && Exposes(entries, e, v);
        var m :| 0 <= m < |entries| && entries[m] == e;
      }
    }
  }

  /** Vacancy depends only on which entries there are, not on their order or repetition. */
  lemma IsVacancySameEntries(a: seq<Entry>, b: seq<Entry>, v: string)
    requires forall e :: e in a <==> e in b
    ensures IsVacancy(a, v) <==> IsVacancy(b, v)
  {
    assert Occupied(a, v) <==> Occupied(b, v);
  }

  /** The output does not depend on the order in which the entries are
      visited: dictionaries with the same entries have the same vacancies. */
  lemma VacanciesSameEntries(a: seq<Entry>, b: seq<Entry>)
    requires forall e :: e in a <==> e in b
    ensures Vacancies(a) == Vacancies(b)
  {
    VacanciesMembers(a);
    VacanciesMembers(b);
    forall v
      ensures v in Vacancies(a) <==> v in Vacancies(b)
    {
      IsVacancySameEntries(a, b, v);
    }
    StrictlySortedUnique(Vacancies(a), Vacancies(b));
  }

  /** A four-character word coded `abcdef` exposes its five- and four-letter
      prefixes but not the three-letter one; a second word coded `abcdxy`
      exposes `abcd` once more, and `abcd` is still reported once. */
  lemma ExampleTwoWords()
    ensures Vacancies([Entry("wxyz", "abcdef"), Entry("stuv", "abcdxy")]) == ["abcd", "abcde", "abcdx"]
  {
    var entries := [Entry("wxyz", "abcdef"), Entry("stuv", "abcdxy")];
    var expected := ["abcd", "abcde", "abcdx"];
    VacanciesMembers(entries);
    assert StrictlySorted(expected) by {
      assert Less("abcd", "abcde") && Less("abcd", "abcdx") && Less("abcde", "abcdx");
    }
    forall v
      ensures v in Vacancies(entries) <==> v in expected
    {
      ExampleVacancy(entries, v);
    }
    StrictlySortedUnique(Vacancies(entries), expected);
  }

  /** The vacant codes of the two-word example, one by one. */
  lemma ExampleVacancy(entries: seq<Entry>, v: string)
    requires entries == [Entry("wxyz", "abcdef"), Entry("stuv", "abcdxy")]
    ensures IsVacancy(entries, v) <==> v in ["abcd", "abcde", "abcdx"]
  {
    if v in ["abcd", "abcde", "abcdx"] {
      assert !Occupied(entries, v);
      if v == "abcdx" {
        assert Exposes(entries, entries[1], v);
      } else {
        assert Exposes(entries, entries[0], v);
      }
    }
    if IsVacancy(entries, v) {
      var e :| e in entries && Exposes(entries, e, v);
      assert v == e.code[..|v|];
      assert e == entries[0] || e == entries[1];
      assert |v| == 4 || |v| == 5;
      assert "abcdef"[..4] == "abcdxy"[..4] == "abcd";
      assert "abcdef"[..5] == "abcde" && "abcdxy"[..5] == "abcdx";
    }
  }

  /** No entries, no vacancies. */
  lemma VacanciesEmpty()
    ensures Vacancies([]) == []
  {
  }

  /** The sequential `FindVacancies`: for each entry, prefix lengths from one
      less than its code down to its floor; every prefix that is no entry's
      code goes into the bag, which is then made distinct and sorted. */
  method FindVacancies(entries: seq<Entry>) returns (r: seq<string>)
    ensures r == Vacancies(entries)
    ensures StrictlySorted(r)
    ensures forall v :: v in r <==> IsVacancy(entries, v)
  {
    var vacancies: seq<string> := [];
    for n := 0 to |entries|
      invariant vacancies == Collected(entries, n)
    {
      var entry := entries[n];
      var limit := if |entry.word| == 3 then 3 else 4;
      vacancies := ProbeEntry(entries, entry.code, limit, vacancies);
    }
    r := SortDistinct(vacancies);
    VacanciesMembers(entries);
  }

  /** The inner loop: prefix lengths from `|code| - 1` down to `limit`,
      appending each prefix that no entry has as its code. */
  method ProbeEntry(entries: seq<Entry>, code: string, limit: nat, bag: seq<string>) returns (r: seq<string>)
    ensures r == bag + Probe(entries, code, |code| - 1, limit)
  {
    r := bag;
    var i := |code| - 1;
    while i >= limit
      invariant limit - 1 <= i || i == |code| - 1
      invariant i <= |code| - 1
      invariant r == bag + Probe(entries, code, |code| - 1, i + 1)
      decreases i
    {
      var prefix := code[..i];
      if !Occupied(entries, prefix) {
        r := r + [prefix];
      }
      i := i - 1;
    }
  }
}
