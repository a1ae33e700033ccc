/** The fly-key dictionary `FindOmitted` builds: eleven pairs of two-letter
    code prefixes, each pair registered in both directions by the local
    `AddFlyKey`. */
module FlyKeyDictionary {
  import opened Wrappers
  import opened Keys

  /** Every key's partner is a key whose partner is the first key again. */
  ghost predicate Symmetric(t: map<Key, Key>)
  {
    forall a :: a in t ==> t[a] in t && t[t[a]] == a
  }

  /** No key is its own partner. */
  ghost predicate Irreflexive(t: map<Key, Key>)
  {
    forall a :: a in t ==> t[a] != a
  }

  /** The local `AddFlyKey`: `flyKeys.Add(code1, code2)` followed by
      `flyKeys.Add(code2, code1)`. `Dictionary.Add` throws on a key that is
      already present; the failure carries the key it was refused. */
  function AddFlyKey(flyKeys: map<Key, Key>, code1: Key, code2: Key): (r: Result<map<Key, Key>, Key>)
    ensures r.Success? <==> code1 !in flyKeys && code2 !in flyKeys && code1 != code2
    ensures r.Failure? ==> r.error == if code1 in flyKeys then code1 else code2
    ensures r.Success? ==> r.value == flyKeys[code1 := code2][code2 := code1]
  {
    if code1 in flyKeys then Failure(code1)
    else if code2 in flyKeys[code1 := code2] then Failure(code2)
    else Success(flyKeys[code1 := code2][code2 := code1])
  }

  /** Registering a pair keeps a table symmetric and irreflexive. */
  lemma AddFlyKeySymmetric(flyKeys: map<Key, Key>, code1: Key, code2: Key, t: map<Key, Key>)
    requires Symmetric(flyKeys) && Irreflexive(flyKeys)
    requires AddFlyKey(flyKeys, code1, code2) == Success(t)
    ensures Symmetric(t) && Irreflexive(t)
  {
    forall a | a in t
      ensures t[a] in t && t[t[a]] == a && t[a] != a
    {
      if a == code1 {
        assert t[a] == code2;
      } else if a == code2 {
        assert t[a] == code1;
      } else {
        assert a in flyKeys;
        var b := flyKeys[a];
        assert b in flyKeys && flyKeys[b] == a && b != a;
        assert t[a] == b && t[b] == a;
      }
    }
  }

  /** A pair that goes through adds its two keys, two dictionary entries,
      and maps them to each other while keeping every earlier entry. */
  lemma AddFlyKeyKeys(flyKeys: map<Key, Key>, code1: Key, code2: Key, t: map<Key, Key>)
    requires AddFlyKey(flyKeys, code1, code2) == Success(t)
    ensures t.Keys == flyKeys.Keys + {code1, code2}
    ensures |t| == |flyKeys| + 2
    ensures t[code1] == code2 && t[code2] == code1
    ensures forall a :: a in flyKeys ==> t[a] == flyKeys[a]
  {
    assert |flyKeys[code1 := code2]| == |flyKeys| + 1;
  }

  /** The dictionary after the `AddFlyKey` calls for the first `n` pairs, or
      the key the first throwing `Add` refused. */
  function BuildTable(pairs: seq<Pair>, n: nat): Result<map<Key, Key>, Key>
    requires n <= |pairs|
  {
    if n == 0 then Success(map[])
    else
      match BuildTable(pairs, n - 1)
      case Failure(k) => Failure(k)
      case Success(t) => AddFlyKey(t, pairs[n - 1].code1, pairs[n - 1].code2)
  }

  /** A table that is built came from a built table `prev` and one more pair. */
  lemma BuildTableStep(pairs: seq<Pair>, n: nat) returns (prev: map<Key, Key>)
    requires 0 < n <= |pairs| && BuildTable(pairs, n).Success?
    ensures BuildTable(pairs, n - 1) == Success(prev)
    ensures AddFlyKey(prev, pairs[n - 1].code1, pairs[n - 1].code2) == BuildTable(pairs, n)
  {
    prev := BuildTable(pairs, n - 1).value;
  }

  /** The keys of the first `n` pairs. */
  ghost function Registered(pairs: seq<Pair>, n: nat): set<Key>
    requires n <= |pairs|
  {
    if n == 0 then {} else Registered(pairs, n - 1) + {pairs[n - 1].code1, pairs[n - 1].code2}
  }

  /** A key is registered exactly when it belongs to one of the first `n` pairs. */
  lemma {:induction false} RegisteredIff(pairs: seq<Pair>, n: nat, x: Key)
    requires n <= |pairs|
    ensures x in Registered(pairs, n) <==> exists i :: 0 <= i < n && (pairs[i].code1 == x || pairs[i].code2 == x)
  {
    if n > 0 {
      RegisteredIff(pairs, n - 1, x);
    }
  }

  /** One more pair keeps the keys distinct exactly when its keys differ
      from each other and from every key registered before. */
  lemma DistinctExtend(pairs: seq<Pair>, n: nat)
    requires 0 < n <= |pairs|
    ensures KeysDistinct(pairs, n) <==>
      && KeysDistinct(pairs, n - 1)
      && pairs[n - 1].code1 != pairs[n - 1].code2
      && pairs[n - 1].code1 !in Registered(pairs, n - 1)
      && pairs[n - 1].code2 !in Registered(pairs, n - 1)
  {
    var p := pairs[n - 1];
    RegisteredIff(pairs, n - 1, p.code1);
    RegisteredIff(pairs, n - 1, p.code2);
    if && KeysDistinct(pairs, n - 1) && p.code1 != p.code2
       && p.code1 !in Registered(pairs, n - 1) && p.code2 !in Registered(pairs, n - 1) {
      forall i, j | 0 <= i < j < n
        ensures Apart(pairs[i], pairs[j])
      {
        if j == n - 1 {
          assert !(pairs[i].code1 == p.code1 || pairs[i].code2 == p.code1);
          assert !(pairs[i].code1 == p.code2 || pairs[i].code2 == p.code2);
        }
      }
    }
    if KeysDistinct(pairs, n) {
      forall i | 0 <= i < n - 1
        ensures pairs[i].code1 != p.code1 && pairs[i].code2 != p.code1
        ensures pairs[i].code1 != p.code2 && pairs[i].code2 != p.code2
      {
        assert Apart(pairs[i], pairs[n - 1]);
      }
    }
  }

  /** The calls that go through register exactly the keys of their pairs,
      one dictionary entry per key. */
  lemma {:induction false} BuildTableKeys(pairs: seq<Pair>, n: nat, t: map<Key, Key>)
    requires n <= |pairs| && BuildTable(pairs, n) == Success(t)
    ensures t.Keys == Registered(pairs, n)
    ensures |t| == 2 * n
  {
    if n > 0 {
      var prev := BuildTableStep(pairs, n);
      BuildTableKeys(pairs, n - 1, prev);
      AddFlyKeyKeys(prev, pairs[n - 1].code1, pairs[n - 1].code2, t);
    }
  }

  /** The calls go through exactly when the registered keys are distinct. */
  lemma {:induction false} BuildTableSucceeds(pairs: seq<Pair>, n: nat)
    requires n <= |pairs|
    ensures BuildTable(pairs, n).Success? <==> KeysDistinct(pairs, n)
  {
    if n > 0 {
      BuildTableSucceeds(pairs, n - 1);
      DistinctExtend(pairs, n);
      match BuildTable(pairs, n - 1)
      case Success(prev) =>
        BuildTableKeys(pairs, n - 1, prev);
      case Failure(_) =>
    }
  }

  /** Every table built is symmetric, and no key is its own partner. */
  lemma {:induction false} BuildTableSymmetric(pairs: seq<Pair>, n: nat, t: map<Key, Key>)
    requires n <= |pairs| && BuildTable(pairs, n) == Success(t)
    ensures Symmetric(t) && Irreflexive(t)
  {
    if n > 0 {
      var prev := BuildTableStep(pairs, n);
      BuildTableSymmetric(pairs, n - 1, prev);
      AddFlyKeySymmetric(prev, pairs[n - 1].code1, pairs[n - 1].code2, t);
    }
  }

  /** Each of the first `n` pairs has both its keys in `t`, mapped to each other. */
  ghost predicate PairsMapped(pairs: seq<Pair>, n: nat, t: map<Key, Key>)
    requires n <= |pairs|
  {
    forall i :: 0 <= i < n ==>
      && pairs[i].code1 in t && pairs[i].code2 in t
      && t[pairs[i].code1] == pairs[i].code2 && t[pairs[i].code2] == pairs[i].code1
  }

  /** Each registered pair maps its keys to each other. */
  lemma {:induction false} BuildTablePairs(pairs: seq<Pair>, n: nat, t: map<Key, Key>)
    requires n <= |pairs| && BuildTable(pairs, n) == Success(t)
    ensures PairsMapped(pairs, n, t)
  {
    if n > 0 {
      var prev := BuildTableStep(pairs, n);
      BuildTablePairs(pairs, n - 1, prev);
      PairsMappedStep(pairs, n, prev, t);
    }
  }

  /** Registering the `n`th pair keeps the earlier pairs mapped and maps it too. */
  lemma PairsMappedStep(pairs: seq<Pair>, n: nat, prev: map<Key, Key>, t: map<Key, Key>)
    requires 0 < n <= |pairs| && PairsMapped(pairs, n - 1, prev)
    requires AddFlyKey(prev, pairs[n - 1].code1, pairs[n - 1].code2) == Success(t)
    ensures PairsMapped(pairs, n, t)
  {
    AddFlyKeyKeys(prev, pairs[n - 1].code1, pairs[n - 1].code2, t);
    forall i | 0 <= i < n
      ensures && pairs[i].code1 in t && pairs[i].code2 in t
              && t[pairs[i].code1] == pairs[i].code2 && t[pairs[i].code2] == pairs[i].code1
    {
      if i < n - 1 {
        assert pairs[i].code1 in prev && pairs[i].code2 in prev;
      }
    }
  }

  /** A refused key is one some call finds already in the dictionary: a key
      of an earlier pair, or the first key of its own pair. */
  lemma {:induction false} RefusedAt(pairs: seq<Pair>, n: nat) returns (i: nat)
    requires n <= |pairs| && BuildTable(pairs, n).Failure?
    ensures i < n && BuildTable(pairs, i).Success?
    ensures var k, p := BuildTable(pairs, n).error, pairs[i];
      || (k == p.code1 && k in Registered(pairs, i))
      || (k == p.code2 && k in Registered(pairs, i) + {p.code1})
  {
    if BuildTable(pairs, n - 1).Failure? {
      i := RefusedAt(pairs, n - 1);
    } else {
      i := n - 1;
      BuildTableKeys(pairs, n - 1, BuildTable(pairs, n - 1).value);
    }
  }

  /** The table `FindOmitted` builds. */
  function FlyKeyTable(): map<Key, Key>
  {
    FlyKeyTableBuilds();
    BuildTable(FlyKeyPairs, 11).value
  }

  /** None of the twenty-two `Add` calls throws; the table has 22 keys, maps
      each pair's keys to each other (so its keys are exactly the 22 keys of
      the pairs), is symmetric in both directions, and no key is its own
      partner. */
  lemma FlyKeyTableBuilds()
    ensures BuildTable(FlyKeyPairs, 11).Success?
    ensures var t := BuildTable(FlyKeyPairs, 11).value;
      && |t| == 22
      && (forall i :: 0 <= i < 11 ==>
            && FlyKeyPairs[i].code1 in t && FlyKeyPairs[i].code2 in t
            && t[FlyKeyPairs[i].code1] == FlyKeyPairs[i].code2 && t[FlyKeyPairs[i].code2] == FlyKeyPairs[i].code1)
      && (forall a, b :: a in t && b in t ==> (t[a] == b <==> t[b] == a))
      && Irreflexive(t)
  {
    FlyKeyPairsDistinct();
    BuildTableFacts(FlyKeyPairs, 11);
  }

  /** The facts about the table built from `n` pairs of distinct keys. */
  lemma BuildTableFacts(pairs: seq<Pair>, n: nat)
    requires n == |pairs| && KeysDistinct(pairs, n)
    ensures BuildTable(pairs, n).Success?
    ensures var t := BuildTable(pairs, n).value;
      && |t| == 2 * n
      && (forall x :: x in t <==> exists i :: 0 <= i < n && (pairs[i].code1 == x || pairs[i].code2 == x))
      && (forall i :: 0 <= i < n ==>
            && pairs[i].code1 in t && pairs[i].code2 in t
            && t[pairs[i].code1] == pairs[i].code2 && t[pairs[i].code2] == pairs[i].code1)
      && (forall a, b :: a in t && b in t ==> (t[a] == b <==> t[b] == a))
      && Irreflexive(t)
  {
    BuildTableSucceeds(pairs, n);
    var t := BuildTable(pairs, n).value;
    BuildTableKeys(pairs, n, t);
    BuildTableSymmetric(pairs, n, t);
    BuildTablePairs(pairs, n, t);
    SymmetricIff(t);
    forall x
      ensures x in t <==> exists i :: 0 <= i < n && (pairs[i].code1 == x || pairs[i].code2 == x)
    {
      RegisteredIff(pairs, n, x);
    }
  }

  /** In a symmetric table, `a` maps to `b` exactly when `b` maps to `a`. */
  lemma SymmetricIff(t: map<Key, Key>)
    requires Symmetric(t)
    ensures forall a, b :: a in t && b in t ==> (t[a] == b <==> t[b] == a)
  {
  }
}
