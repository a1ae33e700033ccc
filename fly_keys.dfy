/** The fly-key omission detector `FindOmitted`: for each distinct word, the
    first entry seen for it is inspected; when the first two letters of its
    code are a registered fly key and no entry of that word has a code
    starting with the partner key, the entry is reported. */
module FlyKeys {
  import opened Wrappers
  import opened Strings
  import opened Entries
  import opened Keys
  import opened FlyKeyDictionary

  /** One report: the word, the code of its first entry, and the missing partner key. */
  datatype Omission = Omission(word: string, code: string, partner: Key)

  /** The report as the program prints it: `word<TAB>code<TAB>partner`. */
  function Render(o: Omission): string
  {
    o.word + "\t" + o.code + "\t" + KeyString(o.partner)
  }

  /** A printed report splits back into its three fields when neither the word
      nor the code holds a tab, which every parsed entry satisfies. */
  lemma RenderSplit(o: Omission)
    requires '\t' !in o.word && '\t' !in o.code && o.partner.first != '\t' && o.partner.second != '\t'
    ensures Split(Render(o), '\t') == [o.word, o.code, KeyString(o.partner)]
  {
    var parts := [o.word, o.code, KeyString(o.partner)];
    SplitJoin(parts, '\t');
    JoinThree(o.word, o.code, KeyString(o.partner), '\t');
  }

  /** Some entry of `word` has a code starting with `key` (`entries.Any(...)`). */
  predicate HasPartner(entries: seq<Entry>, word: string, key: Key)
  {
    exists e :: e in entries && e.word == word && KeyString(key) <= e.code
  }

  /** The words of `entries`. */
  function Words(entries: seq<Entry>): set<string>
  {
    set e | e in entries :: e.word
  }

  /** Entry `i` is the first one carrying its word. */
  ghost predicate IsFirst(entries: seq<Entry>, i: int)
  {
    0 <= i < |entries| && entries[i].word !in Words(entries[..i])
  }

  /** The inspection of a word's first entry `e`: `Substring(0, 2)` fails on a
      code shorter than two; otherwise `e` is reported when its two-letter key
      has a partner and no entry of the word starts with that partner. */
  function Inspect(entries: seq<Entry>, t: map<Key, Key>, e: Entry): Result<Option<Omission>, Entry>
  {
    if |e.code| < 2 then Failure(e)
    else
      var key := FirstKey(e.code);
      if key in t && !HasPartner(entries, e.word, t[key]) then Success(Some(Omission(e.word, e.code, t[key])))
      else Success(None)
  }

  /** The reports after the first `n` entries have been visited in order, or
      the first entry whose inspection failed. */
  function OmittedUpTo(entries: seq<Entry>, t: map<Key, Key>, n: nat): Result<seq<Omission>, Entry>
    requires n <= |entries|
  {
    if n == 0 then Success([])
    else
      match OmittedUpTo(entries, t, n - 1)
      case Failure(f) => Failure(f)
      case Success(found) =>
        var e := entries[n - 1];
        if e.word in Words(entries[..n - 1]) then Success(found)
        else
          match Inspect(entries, t, e)
          case Failure(f) => Failure(f)
          case Success(None) => Success(found)
          case Success(Some(o)) => Success(found + [o])
  }

  /** The outcome of visiting all the entries. */
  function Omitted(entries: seq<Entry>, t: map<Key, Key>): Result<seq<Omission>, Entry>
  {
    OmittedUpTo(entries, t, |entries|)
  }

  /** Entry `i` is a first entry whose inspection reports omission `o`: its
      key has partner `o.partner` and no entry of the word starts with it. */
  ghost predicate Reports(entries: seq<Entry>, t: map<Key, Key>, i: int, o: Omission)
  {
    && IsFirst(entries, i)
    && o.word == entries[i].word && o.code == entries[i].code
    && |o.code| >= 2 && FirstKey(o.code) in t && o.partner == t[FirstKey(o.code)]
    && !HasPartner(entries, o.word, o.partner)
  }

  /** Once an inspection has failed, the outcome no longer changes. */
  lemma {:induction false} FailureSticks(entries: seq<Entry>, t: map<Key, Key>, n: nat, m: nat)
    requires n <= m <= |entries|
    requires OmittedUpTo(entries, t, n).Failure?
    ensures OmittedUpTo(entries, t, m) == OmittedUpTo(entries, t, n)
    decreases m - n
  {
    if n < m {
      FailureSticks(entries, t, n, m - 1);
    }
  }

  /** Visiting one more entry adds its word to the words seen. */
  lemma WordsExtend(entries: seq<Entry>, i: nat)
    requires i < |entries|
    ensures Words(entries[..i + 1]) == Words(entries[..i]) + {entries[i].word}
    ensures entries[i].word in Words(entries[..i]) ==> Words(entries[..i + 1]) == Words(entries[..i])
  {
    assert entries[..i + 1] == entries[..i] + [entries[i]];
  }

  /** The visit fails exactly when some word's first entry has a code shorter
      than two letters, and it fails with the earliest such entry. */
  lemma OmittedFailure(entries: seq<Entry>, t: map<Key, Key>, n: nat)
    requires n <= |entries|
    ensures OmittedUpTo(entries, t, n).Failure? <==>
      exists i :: 0 <= i < n && IsFirst(entries, i) && |entries[i].code| < 2
    ensures OmittedUpTo(entries, t, n).Failure? ==>
      exists i :: && 0 <= i < n && IsFirst(entries, i) && |entries[i].code| < 2 && OmittedUpTo(entries, t, n).error == entries[i]
                  && forall j :: 0 <= j < i && IsFirst(entries, j) ==> |entries[j].code| >= 2
  {
    if OmittedUpTo(entries, t, n).Failure? {
      var i := FailureWitness(entries, t, n);
    }
    forall i | 0 <= i < n && IsFirst(entries, i) && |entries[i].code| < 2
      ensures OmittedUpTo(entries, t, n).Failure?
    {
      ShortFirstFails(entries, t, n, i);
    }
  }

  /** The entry a failed visit fails with: the earliest first entry of a
      word whose code is shorter than two letters. */
  lemma {:induction false} FailureWitness(entries: seq<Entry>, t: map<Key, Key>, n: nat) returns (i: nat)
    requires n <= |entries| && OmittedUpTo(entries, t, n).Failure?
    ensures i < n && IsFirst(entries, i) && |entries[i].code| < 2 && OmittedUpTo(entries, t, n).error == entries[i]
    ensures forall j :: 0 <= j < i && IsFirst(entries, j) ==> |entries[j].code| >= 2
  {
    if OmittedUpTo(entries, t, n - 1).Failure? {
      i := FailureWitness(entries, t, n - 1);
    } else {
      i := n - 1;
      assert entries[i].word !in Words(entries[..i]) && Inspect(entries, t, entries[i]) == Failure(entries[i]);
      NoShortFirst(entries, t, n - 1);
    }
  }

  /** A visit that has not failed has met no first entry with a short code. */
  lemma NoShortFirst(entries: seq<Entry>, t: map<Key, Key>, n: nat)
    requires n <= |entries| && OmittedUpTo(entries, t, n).Success?
    ensures forall j :: 0 <= j < n && IsFirst(entries, j) ==> |entries[j].code| >= 2
  {
    forall j | 0 <= j < n && IsFirst(entries, j)
      ensures |entries[j].code| >= 2
    {
      if |entries[j].code| < 2 {
        ShortFirstFails(entries, t, n, j);
      }
    }
  }

  /** A word's first entry with a short code makes the visit fail once it is reached. */
  lemma {:induction false} ShortFirstFails(entries: seq<Entry>, t: map<Key, Key>, n: nat, i: nat)
    requires n <= |entries| && i < n && IsFirst(entries, i) && |entries[i].code| < 2
    ensures OmittedUpTo(entries, t, n).Failure?
  {
    if i < n - 1 {
      ShortFirstFails(entries, t, n - 1, i);
    }
  }

  /** Every report comes from the first entry of its word, whose key has the
      reported partner, and no entry of that word starts with the partner. */
  lemma {:induction false} OmittedSound(entries: seq<Entry>, t: map<Key, Key>, n: nat)
    requires n <= |entries|
    ensures OmittedUpTo(entries, t, n).Success? ==>
      forall o :: o in OmittedUpTo(entries, t, n).value ==> exists i :: 0 <= i < n && Reports(entries, t, i, o)
  {
    if n > 0 {
      OmittedSound(entries, t, n - 1);
      if OmittedUpTo(entries, t, n - 1).Success? && OmittedUpTo(entries, t, n).Success? {
        var found := OmittedUpTo(entries, t, n - 1).value;
        forall o | o in OmittedUpTo(entries, t, n).value
          ensures exists i :: 0 <= i < n && Reports(entries, t, i, o)
        {
          if o !in found {
            assert Reports(entries, t, n - 1, o);
          }
        }
      }
    }
  }

  /** Every first entry whose inspection finds a missing partner is reported. */
  lemma {:induction false} OmittedComplete(entries: seq<Entry>, t: map<Key, Key>, n: nat)
    requires n <= |entries|
    ensures OmittedUpTo(entries, t, n).Success? ==>
      forall i, o :: 0 <= i < n && Reports(entries, t, i, o) ==> o in OmittedUpTo(entries, t, n).value
  {
    if n > 0 {
      OmittedComplete(entries, t, n - 1);
      if OmittedUpTo(entries, t, n).Success? {
        assert OmittedUpTo(entries, t, n - 1).Success?;
        var found := OmittedUpTo(entries, t, n - 1).value;
        assert forall o :: o in found ==> o in OmittedUpTo(entries, t, n).value;
        forall i, o | 0 <= i < n && Reports(entries, t, i, o)
          ensures o in OmittedUpTo(entries, t, n).value
        {
          if i == n - 1 {
            assert Inspect(entries, t, entries[i]) == Success(Some(o));
          }
        }
      }
    }
  }

  /** A word has one first entry. */
  lemma FirstUnique(entries: seq<Entry>, i: int, j: int)
    requires IsFirst(entries, i) && IsFirst(entries, j) && entries[i].word == entries[j].word
    ensures i == j
  {
  }

  /** When some entry of a word, not necessarily its first, starts with the
      partner of the first entry's key, nothing is reported for that word. */
  lemma PartnerBlocksReport(entries: seq<Entry>, t: map<Key, Key>, n: nat, i: nat)
    requires n <= |entries| && i < |entries| && IsFirst(entries, i) && |entries[i].code| >= 2
    requires FirstKey(entries[i].code) in t && HasPartner(entries, entries[i].word, t[FirstKey(entries[i].code)])
    ensures OmittedUpTo(entries, t, n).Success? ==>
      forall o :: o in OmittedUpTo(entries, t, n).value ==> o.word != entries[i].word
  {
    OmittedSound(entries, t, n);
    if OmittedUpTo(entries, t, n).Success? {
      forall o | o in OmittedUpTo(entries, t, n).value
        ensures o.word != entries[i].word
      {
        var j :| 0 <= j < n && Reports(entries, t, j, o);
        if o.word == entries[i].word {
          FirstUnique(entries, i, j);
        }
      }
    }
  }

  /** A word whose first entry's key is not a fly key gets no report. */
  lemma UnregisteredKeySilent(entries: seq<Entry>, t: map<Key, Key>, n: nat, i: nat)
    requires n <= |entries| && i < |entries| && IsFirst(entries, i) && |entries[i].code| >= 2
    requires FirstKey(entries[i].code) !in t
    ensures OmittedUpTo(entries, t, n).Success? ==>
      forall o :: o in OmittedUpTo(entries, t, n).value ==> o.word != entries[i].word
  {
    OmittedSound(entries, t, n);
    if OmittedUpTo(entries, t, n).Success? {
      forall o | o in OmittedUpTo(entries, t, n).value
        ensures o.word != entries[i].word
      {
        var j :| 0 <= j < n && Reports(entries, t, j, o);
        if o.word == entries[i].word {
          FirstUnique(entries, i, j);
        }
      }
    }
  }

  /** Every word of `entries` has a first entry; with `FirstUnique`, each
      word is inspected exactly once. */
  lemma FirstExists(entries: seq<Entry>)
    ensures forall w :: w in Words(entries) ==> exists i :: IsFirst(entries, i) && entries[i].word == w
  {
    assert entries[..|entries|] == entries;
    forall w | w in Words(entries)
      ensures exists i :: IsFirst(entries, i) && entries[i].word == w
    {
      var i := FirstOf(entries, |entries|, w);
    }
  }

  /** The first entry of a word that occurs among the first `n` entries. */
  lemma {:induction false} FirstOf(entries: seq<Entry>, n: nat, w: string) returns (i: nat)
    requires n <= |entries| && w in Words(entries[..n])
    ensures i < n && IsFirst(entries, i) && entries[i].word == w
  {
    WordsExtend(entries, n - 1);
    if w in Words(entries[..n - 1]) {
      i := FirstOf(entries, n - 1, w);
    } else {
      i := n - 1;
    }
  }

  /** Reports `os` name words of `ws`, no two of them the same, so there are
      at most as many reports as words. */
  predicate OncePerWord(os: seq<Omission>, ws: set<string>)
  {
    && (forall k :: 0 <= k < |os| ==> os[k].word in ws)
    && (forall j, k :: 0 <= j < k < |os| ==> os[j].word != os[k].word)
    && |os| <= |ws|
  }

  /** Each word is inspected once: reports name words of the visited entries,
      no two reports share a word, and there are at most as many reports as
      distinct words. */
  lemma {:induction false} OmittedOncePerWord(entries: seq<Entry>, t: map<Key, Key>, n: nat)
    requires n <= |entries|
    ensures OmittedUpTo(entries, t, n).Success? ==> OncePerWord(OmittedUpTo(entries, t, n).value, Words(entries[..n]))
  {
    if n > 0 {
      OmittedOncePerWord(entries, t, n - 1);
      WordsExtend(entries, n - 1);
      if OmittedUpTo(entries, t, n).Success? {
        var found := OmittedUpTo(entries, t, n - 1).value;
        var e := entries[n - 1];
        if e.word in Words(entries[..n - 1]) {
          OmittedSkip(entries, t, n - 1, found);
        } else if |e.code| >= 2 {
          OmittedVisit(entries, t, n - 1, found);
          OncePerWordGrow(found, Words(entries[..n - 1]), e.word);
          var key := FirstKey(e.code);
          if key in t && !HasPartner(entries, e.word, t[key]) {
            OncePerWordSnoc(found, Words(entries[..n - 1]), Omission(e.word, e.code, t[key]));
          }
        }
      }
    }
  }

  /** A new word leaves the reports naming each word at most once. */
  lemma OncePerWordGrow(os: seq<Omission>, ws: set<string>, w: string)
    requires OncePerWord(os, ws) && w !in ws
    ensures OncePerWord(os, ws + {w})
  {
    assert |ws + {w}| == |ws| + 1;
  }

  /** A report on a new word, together with that word, keeps each word reported at most once. */
  lemma OncePerWordSnoc(os: seq<Omission>, ws: set<string>, o: Omission)
    requires OncePerWord(os, ws) && o.word !in ws
    ensures OncePerWord(os + [o], ws + {o.word})
  {
    assert |ws + {o.word}| == |ws| + 1;
  }

  /** An entry whose word was seen before leaves the reports as they are. */
  lemma OmittedSkip(entries: seq<Entry>, t: map<Key, Key>, i: nat, found: seq<Omission>)
    requires i < |entries| && OmittedUpTo(entries, t, i) == Success(found)
    requires entries[i].word in Words(entries[..i])
    ensures OmittedUpTo(entries, t, i + 1) == Success(found)
  {
  }

  /** The first entry of a word, with a code of two letters or more, adds
      its report when its key has a partner that no entry of the word starts with. */
  lemma OmittedVisit(entries: seq<Entry>, t: map<Key, Key>, i: nat, found: seq<Omission>)
    requires i < |entries| && OmittedUpTo(entries, t, i) == Success(found)
    requires entries[i].word !in Words(entries[..i]) && |entries[i].code| >= 2
    ensures var e := entries[i];
      var key := FirstKey(e.code);
      OmittedUpTo(entries, t, i + 1) ==
        if key in t && !HasPartner(entries, e.word, t[key]) then Success(found + [Omission(e.word, e.code, t[key])])
        else Success(found)
  {
  }

  /** `lines` are the printed forms of `os`, in order. */
  predicate RenderedAll(lines: seq<string>, os: seq<Omission>)
  {
    |lines| == |os| && forall k :: 0 <= k < |os| ==> lines[k] == Render(os[k])
  }

  /** Printing one more report extends the printed lines by its line. */
  lemma RenderedSnoc(lines: seq<string>, os: seq<Omission>, o: Omission)
    requires RenderedAll(lines, os)
    ensures RenderedAll(lines + [Render(o)], os + [o])
  {
  }

  /** The sequential `FindOmitted`: builds the table, then visits the
      entries in order. It fails with the first inspected entry whose code is
      shorter than two, and otherwise returns the printed reports of
      `Omitted`; no entries, no reports. */
  method FindOmitted(entries: seq<Entry>) returns (r: Result<seq<string>, Entry>)
    ensures match Omitted(entries, FlyKeyTable())
      case Failure(e) => r == Failure(e)
      case Success(found) => r.Success? && RenderedAll(r.value, found)
    ensures |entries| == 0 ==> r == Success([])
  {
    FlyKeyTableBuilds();
    var flyKeys := BuildTable(FlyKeyPairs, 11).value;
    r := CheckEntries(entries, flyKeys);
  }

  /** The `ForEach` over the entries with table `flyKeys`, run in order: an
      entry whose word was already checked is skipped; otherwise its word is
      marked checked and its inspection may add a report. */
  method CheckEntries(entries: seq<Entry>, flyKeys: map<Key, Key>) returns (r: Result<seq<string>, Entry>)
    ensures match Omitted(entries, flyKeys)
      case Failure(e) => r == Failure(e)
      case Success(found) => r.Success? && RenderedAll(r.value, found)
  {
    var checkedWords: set<string> := {};
    var omitted: seq<string> := [];
    ghost var found: seq<Omission> := [];
    for i := 0 to |entries|
      invariant checkedWords == Words(entries[..i])
      invariant OmittedUpTo(entries, flyKeys, i) == Success(found)
      invariant RenderedAll(omitted, found)
    {
      var entry := entries[i];
      WordsExtend(entries, i);
      if entry.word in checkedWords {
        OmittedSkip(entries, flyKeys, i, found);
      } else {
        checkedWords := checkedWords + {entry.word};
        if |entry.code| < 2 {
          FailureSticks(entries, flyKeys, i + 1, |entries|);
          r := Failure(entry);
          return;
        }
        OmittedVisit(entries, flyKeys, i, found);
        var key := FirstKey(entry.code);
        if key in flyKeys && !HasPartner(entries, entry.word, flyKeys[key]) {
          var o := Omission(entry.word, entry.code, flyKeys[key]);
          RenderedSnoc(omitted, found, o);
          omitted := omitted + [Render(o)];
          found := found + [o];
        }
      }
    }
    r := Success(omitted);
  }
}
