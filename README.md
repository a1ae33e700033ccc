# RIME_JD6_Tools: the parser, the fly-key omission detector and the vacancy detector

RIME_JD6_Tools has two small console programs for Rime input-method dictionaries. Each dictionary line is
`word<TAB>code`, optionally followed by more fields and a `#` comment.

- **FlyKeys** lists the words whose first code starts with a *fly key* but which have no code starting with
  that key's partner. A fly key is one of eleven pairs of interchangeable two-letter code prefixes, such as `fh`
  and `qh`.
- **Vacancy** lists the *vacant codes*. These are prefixes of the codes in the dictionary that no entry uses as
  its full code.

This Dafny project models the logic the two programs consist of. Each part is stated over values and proved
against a specification function.

- **`ReadEntries`** (module `Entries`) is the parser. Both programs carry the same text, so it is modelled
  once.
  - A line is cut at its first `#` and split on tabs.
  - It is kept when it has at least two fields; its first two fields become a `(word, code)` entry.
  - The model is a pure function. The LINQ `Where`/`Select` shape is `Seqs.FilterMap`.
- **The fly-key table** (modules `Keys`, `FlyKeyDictionary`). The program calls the local function `AddFlyKey`
  eleven times on an empty dictionary. Each call performs two `Dictionary.Add` calls, and `Add` throws on a
  duplicate key.
  - `AddFlyKey` is a function from the dictionary before the call to a `Result`: the dictionary after the call,
    or the key whose `Add` would throw.
  - `BuildTable` folds `AddFlyKey` over the eleven pairs, in the order of the calls.
  - The lemmas prove that the fold succeeds exactly when the 22 keys are distinct. They also prove that the
    eleven pairs in the source are distinct, and that the resulting table is symmetric, has 22 keys and maps no
    key to itself.
- **`FindOmitted`** (module `FlyKeys`) is an imperative method, run sequentially.
  - It keeps a set of checked words and a sequence of output lines.
  - It visits the entries in order and skips any entry whose word was already checked.
  - It inspects the first entry of each word: the first two letters of its code are looked up in the table,
    and the entry is reported when that key has a partner and no entry of the same word has a code starting
    with the partner.
  - A code shorter than two letters makes `Substring(0, 2)` throw, which aborts the run. The model returns
    `Failure(entry)` for the first such entry inspected.
  - The method is proved against the function `Omitted`. The lemmas prove about `Omitted` that reports are sound
    and complete, that each distinct word is inspected exactly once and reported at most once, that the failure case is exactly characterised, and
    that each rendered line splits back into its fields.
- **`FindVacancies`** (module `Vacancy`) is an imperative method with the program's nested loops.
  - For each entry, the prefix length runs from one less than the code's length down to the entry's floor. The
    floor is 3 for a three-character word and 4 otherwise.
  - Every prefix that is no entry's code goes into a bag.
  - The bag is then made distinct and sorted (`Strings.SortDistinct`).
  - The method's contract says the output is sorted without duplicates and holds exactly the vacant codes. The
    lemmas add that no output is an entry's code and that the output does not depend on the order of the
    entries.

Strings are `seq<char>` and the order is ordinal, character by character (`Strings.Less`). Results that the
programs print are modelled as the sequence of printed lines.

## Model

| member | source | states |
|---|---|---|
| Strings.IndexOf | FlyKeys/Program.cs:49 | `line.IndexOf('#')`: -1 exactly when the character is absent, otherwise the position of its first occurrence |
| Strings.Split | FlyKeys/Program.cs:49 | `Split('\t')` always yields at least one field |
| Strings.SplitOne | FlyKeys/Program.cs:49-50 | a text splits into one field exactly when it has no separator, so "at least two fields" means "holds a tab" |
| Strings.SplitFields | FlyKeys/Program.cs:54-56 | no field of a split holds the separator |
| Strings.JoinSplit | FlyKeys/Program.cs:54-56 | joining the fields with the separator gives the text back (nothing is lost by splitting) |
| Strings.SplitJoin | FlyKeys/Program.cs:86 | splitting a join of separator-free parts gives the parts back |
| Strings.FirstOfSplit | FlyKeys/Program.cs:57 | `parts[0]` is the text before the first separator, or the whole text when there is none |
| Strings.FieldsLayout | FlyKeys/Program.cs:57 | with a separator present, `parts[0]` is the text before the first one, and `parts[1]` runs from there to the next one or to the end |
| Strings.FieldsWithin | FlyKeys/Program.cs:57 | the first two fields use only characters of the split text |
| Strings.IndexOfAt | FlyKeys/Program.cs:49 | the position of a separator with none before it is what `IndexOf` returns |
| Strings.SplitAt | FlyKeys/Program.cs:54-56 | a text whose first separator is at `k` splits into the text before `k` followed by the fields of the rest |
| Strings.LessIrreflexive | Vacancy/Program.cs:75 | the ordering used by `OrderBy` is irreflexive |
| Strings.LessAsymmetric | Vacancy/Program.cs:75 | the ordering is asymmetric |
| Strings.LessTransitive | Vacancy/Program.cs:75 | the ordering is transitive |
| Strings.LessTotal | Vacancy/Program.cs:75 | any two different strings are ordered one way or the other |
| Strings.Insert | Vacancy/Program.cs:75 | inserting into a strictly sorted sequence keeps it strictly sorted; the elements are the old ones plus the new one |
| Strings.SortDistinct | Vacancy/Program.cs:75 | `Distinct().OrderBy(v => v)`: strictly ascending, and holds exactly the elements of the input |
| Strings.StrictlySortedUnique | Vacancy/Program.cs:75 | two strictly sorted sequences with the same elements are equal, so the output is determined by the set of vacancies |
| Seqs.FilterMap | FlyKeys/Program.cs:48-58 | a `Where`/`Select` query yields at most as many results as inputs |
| Seqs.FilterMapMembers | FlyKeys/Program.cs:48-58 | a value comes out exactly when some input passes the filter and projects to it |
| Seqs.FilterMapAppend | FlyKeys/Program.cs:48-58 | the query distributes over concatenation of its input |
| Seqs.FilterMapRemove | FlyKeys/Program.cs:46-58 | taking one input out takes exactly its result, if any, out of the output multiset |
| Seqs.FilterMapPermutation | FlyKeys/Program.cs:46-58 | reordering the input (as `AsParallel` may) only reorders the output: equal multisets |
| Entries.StripComment | FlyKeys/Program.cs:54-56 | the comment-free part is a prefix of the line without `#`, and is the whole line or ends right before a `#` |
| Entries.ParseLine | FlyKeys/Program.cs:48-58 | a line yields an entry exactly when the `Where` filter keeps it |
| Entries.ReadEntries | Vacancy/Program.cs:44-58 | the parser (the same text as FlyKeys/Program.cs:45-59) returns at most one entry per line and never fails |
| Entries.ReadEntriesMembers | FlyKeys/Program.cs:45-59 | an entry is returned exactly when some kept line projects to it |
| Entries.ReadEntriesClean | FlyKeys/Program.cs:54-57 | no returned word or code contains a tab or a `#` |
| Entries.KeepIffTab | FlyKeys/Program.cs:48-50 | a line is kept exactly when the part before its first `#` (the whole line without one) contains a tab |
| Entries.ToEntryClean | FlyKeys/Program.cs:54-57 | the word and code of a kept line contain neither a tab nor a `#` |
| Entries.ToEntryLayout | FlyKeys/Program.cs:54-57 | the word is the comment-free text before the first tab, and the code runs from that tab to the next tab or to the end of the comment-free part |
| Entries.ReadEntriesAppend | Vacancy/Program.cs:44-58 | parsing two blocks of lines gives the entries of the first block followed by those of the second |
| Entries.ReadEntriesPermutation | FlyKeys/Program.cs:46-47 | reordering the lines only reorders the entries, so the unordered parallel query returns the same multiset |
| Keys.KeyString | FlyKeys/Program.cs:86 | a key prints as its two letters |
| Keys.FirstKey | FlyKeys/Program.cs:84 | `code.Substring(0, 2)`: the key prints as the first two letters of the code |
| Keys.FlyKeyPairsDistinct | FlyKeys/Program.cs:67-77 | the eleven registered pairs make 22 distinct keys |
| FlyKeyDictionary.AddFlyKey | FlyKeys/Program.cs:90-94 | both `Add` calls go through exactly when neither key is present and the keys differ; otherwise the failing key is the first argument if present, else the second; on success the dictionary gains both directions |
| FlyKeyDictionary.AddFlyKeySymmetric | FlyKeys/Program.cs:90-94 | registering a pair keeps the dictionary symmetric and free of self-partners |
| FlyKeyDictionary.AddFlyKeyKeys | FlyKeys/Program.cs:90-94 | a successful call adds exactly its two keys, two dictionary entries, maps them to each other and leaves every earlier key's partner unchanged |
| FlyKeyDictionary.RegisteredIff | FlyKeys/Program.cs:67-77 | a key is registered exactly when it belongs to one of the pairs registered so far |
| FlyKeyDictionary.DistinctExtend | FlyKeys/Program.cs:67-77 | one more pair keeps all keys distinct exactly when its two keys differ from each other and from every key already registered |
| FlyKeyDictionary.BuildTableKeys | FlyKeys/Program.cs:67-77 | after `n` successful calls the keys are exactly those of the `n` pairs, `2n` of them |
| FlyKeyDictionary.BuildTableSucceeds | FlyKeys/Program.cs:67-77 | no `Add` throws exactly when the keys of the registered pairs are pairwise distinct |
| FlyKeyDictionary.BuildTableSymmetric | FlyKeys/Program.cs:67-77 | every dictionary built is symmetric and maps no key to itself |
| FlyKeyDictionary.BuildTablePairs | FlyKeys/Program.cs:67-77 | every registered pair has both keys in the dictionary, mapped to each other |
| FlyKeyDictionary.RefusedAt | FlyKeys/Program.cs:90-94 | when an `Add` throws, it is at some call whose dictionary was built, and the refused key is already there: a key of an earlier pair, or the call's own first key |
| FlyKeyDictionary.FlyKeyTableBuilds | FlyKeys/Program.cs:67-77 | none of the twenty-two `Add` calls made by the program's eleven `AddFlyKey` calls throws; the table has 22 keys, maps each pair's keys to each other, satisfies `t[a] == b` exactly when `t[b] == a`, and maps no key to itself |
| FlyKeyDictionary.BuildTableFacts | FlyKeys/Program.cs:67-77 | for any list of pairs with distinct keys the dictionary builds, and its keys are exactly the pairs' keys, mapped to their partners, symmetric in both directions |
| FlyKeyDictionary.SymmetricIff | FlyKeys/Program.cs:90-94 | in a symmetric dictionary, `a` maps to `b` exactly when `b` maps to `a` |
| FlyKeys.RenderSplit | FlyKeys/Program.cs:86 | a printed report `word<TAB>code<TAB>partner` splits back into its three fields |
| FlyKeys.FailureSticks | FlyKeys/Program.cs:84 | once a `Substring` throws, the run's outcome no longer changes |
| FlyKeys.WordsExtend | FlyKeys/Program.cs:82-83 | visiting an entry adds its word to the checked words, and a word already checked adds nothing |
| FlyKeys.OmittedFailure | FlyKeys/Program.cs:84 | the run fails exactly when some word's first entry has a code shorter than two characters, and it fails with the earliest such entry |
| FlyKeys.FailureWitness | FlyKeys/Program.cs:84 | a failed run names a visited first entry whose code is shorter than two, and every earlier first entry has a code of two or more |
| FlyKeys.NoShortFirst | FlyKeys/Program.cs:84 | a run that has not failed has met no first entry with a code shorter than two |
| FlyKeys.ShortFirstFails | FlyKeys/Program.cs:84 | a word's first entry with a code shorter than two makes the run fail |
| FlyKeys.OmittedSound | FlyKeys/Program.cs:84-86 | every report is a word's first entry, whose two-letter key is in the table with the reported partner, and no entry of that word has a code starting with the partner; so a key without a partner produces nothing |
| FlyKeys.OmittedComplete | FlyKeys/Program.cs:84-86 | every first entry whose key has a partner that no entry of its word starts with is reported |
| FlyKeys.FirstUnique | FlyKeys/Program.cs:82-83 | the check-then-add guard lets at most one entry of each word through: two first entries of the same word are the same entry |
| FlyKeys.FirstExists | FlyKeys/Program.cs:82-83 | every word of the entries has a first entry, so with `FirstUnique` each distinct word is inspected exactly once |
| FlyKeys.FirstOf | FlyKeys/Program.cs:82-83 | a word among the first `n` entries has its first entry among them |
| FlyKeys.PartnerBlocksReport | FlyKeys/Program.cs:85 | if any entry of the word, not only the inspected one, starts with the partner key, the word gets no report |
| FlyKeys.UnregisteredKeySilent | FlyKeys/Program.cs:84 | a word whose inspected entry's two-letter key is not in the table gets no report |
| FlyKeys.OmittedOncePerWord | FlyKeys/Program.cs:82-83 | reports name checked words, no word twice, so there are at most as many reports as distinct words |
| FlyKeys.OncePerWordGrow | FlyKeys/Program.cs:83 | checking a new word keeps every word reported at most once |
| FlyKeys.OncePerWordSnoc | FlyKeys/Program.cs:83-86 | reporting a newly checked word keeps every word reported at most once |
| FlyKeys.OmittedSkip | FlyKeys/Program.cs:82 | an entry whose word was already checked changes nothing |
| FlyKeys.OmittedVisit | FlyKeys/Program.cs:83-86 | a new word's entry with a code of two or more letters adds its report exactly when its key has a partner that no entry of the word starts with |
| FlyKeys.RenderedSnoc | FlyKeys/Program.cs:86 | adding one report adds its printed line to the output |
| FlyKeys.CheckEntries | FlyKeys/Program.cs:79-88 | the loop over the entries fails with the entry `Omitted` fails with, or else returns the printed lines of exactly the reports of `Omitted`, in order |
| FlyKeys.FindOmitted | FlyKeys/Program.cs:61-95 | with the program's table, the result is the failing entry or the printed reports of `Omitted`; no entries give no reports |
| Vacancy.ProbeMembers | Vacancy/Program.cs:69-73 | the inner loop collects exactly the unoccupied prefixes of the code whose length lies in its range |
| Vacancy.ContributionMembers | Vacancy/Program.cs:66-73 | an entry contributes exactly the prefixes of its code that are at least its floor long, shorter than the code, and no entry's code |
| Vacancy.ShortCodeContributesNothing | Vacancy/Program.cs:69 | a code no longer than its entry's floor contributes nothing |
| Vacancy.CollectedMembers | Vacancy/Program.cs:63-74 | the bag holds exactly the prefixes some visited entry exposes |
| Vacancy.VacanciesMembers | Vacancy/Program.cs:60-76 | the output is strictly ascending, holds exactly the vacant codes (sound and complete), and contains no entry's code |
| Vacancy.IsVacancySameEntries | Vacancy/Program.cs:72 | whether a code is vacant depends only on which entries there are |
| Vacancy.VacanciesSameEntries | Vacancy/Program.cs:62-75 | dictionaries with the same entries, in any order and with any repetition, have the same output |
| Vacancy.ExampleVacancy | Vacancy/Program.cs:66-72 | for words `wxyz`/`abcdef` and `stuv`/`abcdxy` the vacant codes are exactly `abcd`, `abcde` and `abcdx` |
| Vacancy.ExampleTwoWords | Vacancy/Program.cs:60-76 | that example's output is `abcd`, `abcde`, `abcdx`: the three-letter prefix is not examined and the shared `abcd` appears once |
| Vacancy.VacanciesEmpty | Vacancy/Program.cs:62-75 | no entries give no vacancies |
| Vacancy.ProbeEntry | Vacancy/Program.cs:69-73 | the inner loop appends to the bag exactly the unoccupied prefixes, from length one less than the code down to the floor |
| Vacancy.FindVacancies | Vacancy/Program.cs:60-76 | the result is strictly ascending and holds exactly the vacant codes of the entries |

## Left out

- `Main`, `GetPath`, `DistinctName`, `WriteFile` and `WriteScreen` in both programs are left out. They are console prompts, a loop that checks a file exists, output-file naming and file writing: I/O with no logic to model. `File.ReadAllLines` becomes the `lines` parameter of `ReadEntries`.
- The `try`/`catch` in `Main` is not modelled. The one exception the core can raise, `Substring(0, 2)` on a short code, is the `Failure` result of `FindOmitted`. The twenty-two `Dictionary.Add` calls (two in each of the eleven `AddFlyKey` calls) are proved never to throw.
- Parallelism is not modelled: `AsParallel`, `Parallel.ForEach` and `ConcurrentBag` run sequentially, in input order.
  - For the parser, `ReadEntriesPermutation` shows that the input order only changes the order of the entries.
  - For the vacancy detector, `VacanciesSameEntries` shows that the order does not matter at all.
  - The omission detector's reports come out in visit order, whereas the program's bag has no fixed order.
- FlyKeys.FindOmitted: does not model the race between `checkedWords.Contains` and `checkedWords.Add`. Two threads could both pass the check for the same word and report it twice; the model states the intended behaviour, one inspection per word.
- FlyKeys.FindOmitted: for a word with several entries, the inspected entry is the first one in input order. The program inspects whichever entry a worker thread reaches first.
- FlyKeyDictionary.AddFlyKey: modelled as a function from the dictionary before a call to the dictionary after it. It is folded over the eleven pairs, instead of eleven statements mutating a local `Dictionary`. The dictionary never escapes `FindOmitted`, so no aliasing is lost.
- Vacancy.FindVacancies: checks occupancy with a quantifier (`Occupied`) rather than a loop over the entries, which is what `entries.All(...)` is. The loop's effect is modelled, not its steps.
- Culture-sensitive string comparison is not modelled: `OrderBy(v => v)` is ordinal order on `seq<char>`, and `StartsWith` is plain prefix.
- UTF-16 encoding is not modelled: `Length` and `Substring` work on `char` sequences, with no surrogate pairs or normalisation.
- The character-triggered omission strategy is not part of this model. It does not occur in either program's code.
