/**
 * The trie's own test case: `build` over the key list
 * {"bbc", "able", "abc", "abcde", "can"}, then `commonPrefixSearch("abcde")`
 * and `predictiveSearch("ab")` with the default limit. Each lemma takes as
 * its premise what the operation promises and derives the answer the test
 * expects.
 */
module TrieExamples {
  import opened TrieKeys
  import opened TrieShapes
  import opened TrieOrders
  import opened Tries

  const Bbc: Key := [98, 98, 99]
  const Able: Key := [97, 98, 108, 101]
  const Abc: Key := [97, 98, 99]
  const Abcde: Key := [97, 98, 99, 100, 101]
  const Can: Key := [99, 97, 110]
  const Ab: Key := [97, 98]

  /** `keyList` as the test fills it. */
  const KeyList: seq<Key> := [Bbc, Able, Abc, Abcde, Can]

  /** `build` leaves the keys in this order: "abc" before its extension
      "abcde", and both before "able" since 'c' < 'l'. */
  lemma BuildOrder(keys: seq<Key>)
    requires Sorted(keys) && forall k :: k in keys <==> k in KeyList
    ensures keys == [Abc, Abcde, Able, Bbc, Can]
  {
    var want := [Abc, Abcde, Able, Bbc, Can];
    PrefixLess(Abc, Abcde);
    CommonIs(Abcde, Able, 2);
    CommonIs(Able, Bbc, 0);
    CommonIs(Bbc, Can, 0);
    LessTransitive(Abc, Abcde, Able);
    LessTransitive(Abc, Able, Bbc);
    LessTransitive(Abc, Bbc, Can);
    LessTransitive(Abcde, Able, Bbc);
    LessTransitive(Abcde, Bbc, Can);
    LessTransitive(Able, Bbc, Can);
    assert Sorted(want);
    SortedSame(keys, want);
  }

  /** The keys of a trie built from `KeyList`, whatever their ids. */
  lemma Members(t: Trie)
    requires t.Valid() && Sorted(t.keys) && forall k :: k in t.keys <==> k in KeyList
    ensures t.keys == [Abc, Abcde, Able, Bbc, Can] && t.isReady && t.numOfKeys == 5
  {
    BuildOrder(t.keys);
  }

  /** The keys of `KeyList` that are prefixes of "abcde" are "abc" and
      "abcde". */
  lemma PrefixLengths(keys: seq<Key>, n: nat)
    requires keys == [Abc, Abcde, Able, Bbc, Can] && n <= |Abcde| && Abcde[..n] in keys
    ensures n == 3 || n == 5
  {
    assert Abcde[..3] == Abc && Abcde[..4] == [97, 98, 99, 100];
  }

  /** Strictly increasing lengths drawn from {3, 5}: the `k`-th is at
      least `3 + 2 * k`, so there are at most two. */
  lemma {:induction false} ThreeThenFive(results: seq<Match>, k: nat)
    requires forall i | 0 <= i < |results| :: results[i].length == 3 || results[i].length == 5
    requires forall a, b | 0 <= a < b < |results| :: results[a].length < results[b].length
    requires k < |results|
    ensures k <= 1 && results[k].length >= 3 + 2 * k
  {
    if k > 0 {
      ThreeThenFive(results, k - 1);
      assert results[k - 1].length < results[k].length;
    }
  }

  /** The keys of `KeyList` that begin with "ab" are the first three. */
  lemma StartingWithAb(keys: seq<Key>)
    requires keys == [Abc, Abcde, Able, Bbc, Can]
    ensures WithPrefix(keys, Ab) == [Abc, Abcde, Able]
  {
    forall i | 0 <= i < |keys|
      ensures IsPrefix(Ab, keys[i]) <==> 0 <= i < 3
    {
      if i < 3 {
        assert keys[i][..2] == Ab;
      } else {
        assert keys[i][..2][0] == keys[i][0];
      }
    }
    PrefixBlock(keys, Ab, 0, 3);
    assert keys[0..3] == [Abc, Abcde, Able];
  }

  /** `commonPrefixSearch("abcde")` with the default limit reports two
      keys, "abc" and then "abcde". */
  lemma CommonPrefixExample(t: Trie, results: seq<Match>)
    requires t.Valid() && Sorted(t.keys) && forall k :: k in t.keys <==> k in KeyList
    requires t.Listed(Abcde, results)
    requires t.Found(Abcde, results, t.Reach(Abcde, DEFAULT_LIMIT_VALUE, results))
    ensures |results| == 2 && results[0].length == 3 && results[1].length == 5
  {
    Members(t);
    forall k | 0 <= k < |results|
      ensures results[k].length == 3 || results[k].length == 5
    {
      PrefixLengths(t.keys, results[k].length);
    }
    if |results| > 0 {
      ThreeThenFive(results, |results| - 1);
    }
    var bound := t.Reach(Abcde, DEFAULT_LIMIT_VALUE, results);
    assert bound == 6;
    FoundBoth(t, results);
    TwoLengths(results);
  }

  /** With the keys of `KeyList`, "abc" and "abcde" are both found. */
  lemma FoundBoth(t: Trie, results: seq<Match>)
    requires t.keys == [Abc, Abcde, Able, Bbc, Can] && t.Found(Abcde, results, 6)
    ensures exists k | 0 <= k < |results| :: results[k].length == 3
    ensures exists k | 0 <= k < |results| :: results[k].length == 5
  {
    AbcdePrefixes();
    assert t.keys[0] == Abc && t.keys[1] == Abcde;
  }

  /** Strictly increasing lengths drawn from {3, 5} that include both are
      exactly 3 then 5. */
  lemma TwoLengths(results: seq<Match>)
    requires forall i | 0 <= i < |results| :: results[i].length == 3 || results[i].length == 5
    requires forall a, b | 0 <= a < b < |results| :: results[a].length < results[b].length
    requires exists k | 0 <= k < |results| :: results[k].length == 3
    requires exists k | 0 <= k < |results| :: results[k].length == 5
    ensures |results| == 2 && results[0].length == 3 && results[1].length == 5
  {
    ThreeThenFive(results, |results| - 1);
    var k0 :| 0 <= k0 < |results| && results[k0].length == 3;
    var k1 :| 0 <= k1 < |results| && results[k1].length == 5;
  }

  /** "abc" and "abcde" itself are prefixes of "abcde". */
  lemma AbcdePrefixes()
    ensures IsPrefix(Abc, Abcde) && IsPrefix(Abcde, Abcde)
  {
    assert Abcde[..3] == Abc && Abcde[..5] == Abcde;
  }

  /** `predictiveSearch("ab")` with the default limit reports three
      keys: "abc", "abcde" and "able", in that order. */
  lemma PredictiveExample(t: Trie, ret: seq<nat>)
    requires t.Valid() && Sorted(t.keys) && forall k :: k in t.keys <==> k in KeyList
    requires t.isReady ==>
               Below(ret, t.numOfKeys) &&
               Names(t.keys, t.Shape(), t.plan, ret) == Take(WithPrefix(t.keys, Ab), DEFAULT_LIMIT_VALUE)
    ensures t.isReady && |ret| == 3 && Names(t.keys, t.Shape(), t.plan, ret) == [Abc, Abcde, Able]
  {
    Members(t);
    StartingWithAb(t.keys);
  }
}
