/** The two-letter code prefixes that serve as fly keys, and the eleven
    pairs of them that `FindOmitted` registers. */
module Keys {

  /** A two-letter code prefix, the key type of the fly-key dictionary. */
  datatype Key = Key(first: char, second: char)

  /** The key as a two-character string. */
  function KeyString(k: Key): (s: string)
    ensures |s| == 2 && s[0] == k.first && s[1] == k.second
  {
    [k.first, k.second]
  }

  /** The two-letter prefix of a code, `code.Substring(0, 2)`. */
  function FirstKey(code: string): (k: Key)
    requires |code| >= 2
    ensures KeyString(k) == code[..2]
  {
    Key(code[0], code[1])
  }

  /** The two arguments of one `AddFlyKey(code1, code2)` call: partner keys. */
  datatype Pair = Pair(code1: Key, code2: Key)

  /** The pairs `FindOmitted` registers, in the order of its `AddFlyKey` calls. */
  const FlyKeyPairs: seq<Pair> := [
    Pair(Key('f', 'h'), Key('q', 'h')),
    Pair(Key('f', 'z'), Key('q', 'z')),
    Pair(Key('f', 'e'), Key('q', 'e')),
    Pair(Key('j', 'z'), Key('w', 'z')),
    Pair(Key('j', 'e'), Key('w', 'e')),
    Pair(Key('g', 'x'), Key('g', 'm')),
    Pair(Key('k', 'x'), Key('k', 'm')),
    Pair(Key('h', 'x'), Key('h', 'm')),
    Pair(Key('f', 'x'), Key('f', 'm')),
    Pair(Key('w', 'x'), Key('w', 'm')),
    Pair(Key('e', 'x'), Key('e', 'm'))
  ]

  /** Two pairs share no key. */
  predicate Apart(p: Pair, q: Pair)
  {
    p.code1 != q.code1 && p.code1 != q.code2 && p.code2 != q.code1 && p.code2 != q.code2
  }

  /** The keys of the first `n` pairs are `2 * n` distinct keys: no pair
      repeats its own key, and no two pairs share one. */
  predicate KeysDistinct(pairs: seq<Pair>, n: nat)
    requires n <= |pairs|
  {
    && (forall i :: 0 <= i < n ==> pairs[i].code1 != pairs[i].code2)
    && (forall i, j :: 0 <= i < j < n ==> Apart(pairs[i], pairs[j]))
  }

  /** The eleven registered pairs are twenty-two distinct keys. */
  lemma FlyKeyPairsDistinct()
    ensures |FlyKeyPairs| == 11 && KeysDistinct(FlyKeyPairs, 11)
  {
    forall i, j | 0 <= i < j < 11
      ensures Apart(FlyKeyPairs[i], FlyKeyPairs[j])
    {
      if j < 6 {
      } else if 6 <= i {
      } else {
      }
    }
  }
}
