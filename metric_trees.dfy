/** What the tree does with each of the two shipped metrics.  With Hamming
    distance the `ui` sentinel is stored in an `int` as -1: insert refuses a
    word of another length (-1 is not positive), while find reports words to a
    query of another length with distance -1 (-1 is within any limit >= -1),
    though only those whose keys fall in the window around -1.  On a query of
    the root's length, and with edit distance on words shorter than 2^31,
    find is exactly a range filter.  With either metric, on words shorter than
    2^31, insert adds exactly the words not yet stored (for Hamming, of the
    root's length), and the tree holds each word at most once. */
module MetricTrees {
  import opened Metrics
  import opened MetricProperties
  import opened TreeModel
  import opened TreeProperties

  /** The Hamming sentinel read as `int`. */
  lemma SentinelIsMinusOne()
    ensures ToInt32(U32_MAX) == -1
  {
  }

  /** A word whose stored length differs from the node's is refused and leaves
      the tree unchanged. */
  lemma HammingRefusesOtherLengths(t: Tree, value: string)
    requires ToU32(|value|) != ToU32(|t.word|)
    ensures Insert(t, value, Hamming) == (t, false)
  {
    assert Dist(Hamming, value, t.word) == -1;
  }

  /** Every word of a Hamming tree has the root's stored length, since only a
      positive distance lets a word in. */
  lemma HammingTreeOneLength(t: Tree)
    requires Partitioned(t, Hamming)
    ensures forall w :: w in Bag(t) ==> ToU32(|w|) == ToU32(|t.word|)
  {
    forall w | w in Bag(t)
      ensures ToU32(|w|) == ToU32(|t.word|)
    {
      BagMembers(t, w);
      if w != t.word {
        var k :| k in t.children && w in Bag(t.children[k]);
        assert Dist(Hamming, w, t.word) == k > 0;
      }
    }
  }

  /** A query whose stored length differs from the root's gets the root as
      its first hit with distance -1, and every hit carries distance -1. */
  lemma HammingFindOtherLength(t: Tree, query: string, limit: int)
    requires Partitioned(t, Hamming)
    requires ToU32(|query|) != ToU32(|t.word|) && limit >= -1
    ensures var hits := Find(t, query, limit, Hamming);
      |hits| > 0 && hits[0] == (t.word, -1) && forall h :: h in hits ==> h.1 == -1
  {
    HammingTreeOneLength(t);
    assert Dist(Hamming, query, t.word) == -1;
    forall h | h in Find(t, query, limit, Hamming)
      ensures h.1 == -1
    {
      FindSound(t, query, limit, Hamming, h);
    }
  }

  /** Below -1 the limit rejects even the sentinel, and the window around -1
      is empty: a query of another length gets nothing back. */
  lemma HammingFindOtherLengthBelowMinusOne(t: Tree, query: string, limit: int)
    requires ToU32(|query|) != ToU32(|t.word|) && limit < -1
    ensures Find(t, query, limit, Hamming) == []
  {
    assert Dist(Hamming, query, t.word) == -1;
    FindAlongNegativeLimit(t, Ascending(t.children.Keys), 0, -1, query, limit, Hamming);
  }

  /** The tree of `HammingFindDependsOnKeys`: "aaa" with "bbb" at key 3. */
  function KeyedPair(): Tree
  {
    Node("aaa", map[3 := Leaf("bbb")])
  }

  /** A root with one leaf child is partitioned when the leaf's key is its
      positive distance from the root's word. */
  lemma PairPartitioned(x: string, y: string, k: int, metric: Metric)
    requires k > 0 && Dist(metric, y, x) == k
    ensures Partitioned(Node(x, map[k := Leaf(y)]), metric)
    ensures Bag(Node(x, map[k := Leaf(y)])) == multiset{x, y}
  {
    var t := Node(x, map[k := Leaf(y)]);
    assert t.children.Keys == {k} && MinKey({k}) == k;
    assert BagOver(t, {k}) == Bag(Leaf(y)) + BagOver(t, {});
    assert Bag(Leaf(y)) == multiset{y};
  }

  /** "bbb" is at Hamming distance 3 from "aaa", so the pair is partitioned
      and stores both words. */
  lemma KeyedPairPartitioned()
    ensures Partitioned(KeyedPair(), Hamming) && Bag(KeyedPair()) == multiset{"aaa", "bbb"}
  {
    assert Mismatches("bbb", "aaa", 3) == 3 by {
      assert "bbb"[0] != "aaa"[0] && "bbb"[1] != "aaa"[1] && "bbb"[2] != "aaa"[2];
    }
    PairPartitioned("aaa", "bbb", 3, Hamming);
  }

  /** The query "x" with limit 1 gets the root at -1, and the child keyed 3
      lies outside the window [-2, 0]. */
  lemma KeyedPairFind()
    ensures Find(KeyedPair(), "x", 1, Hamming) == [("aaa", -1)]
  {
    var t := KeyedPair();
    assert Dist(Hamming, "x", "aaa") == -1;
    assert Ascending(t.children.Keys) == [3] by {
      assert t.children.Keys == {3} && MinKey({3}) == 3;
    }
    assert FindAlong(t, [3], 0, -1, "x", 1, Hamming) == [];
  }

  /** Which words a query of another length gets back depends on the keys, not
      only on the distance: here "bbb" is at distance -1 from "x", within the
      limit 1, yet it is not reported, because its key 3 lies outside the
      window [-2, 0] around the root's distance -1. */
  lemma HammingFindDependsOnKeys()
    ensures var t := Node("aaa", map[3 := Leaf("bbb")]);
      Partitioned(t, Hamming) && "bbb" in Bag(t) && Dist(Hamming, "x", "bbb") == -1 &&
      Find(t, "x", 1, Hamming) == [("aaa", -1)]
  {
    KeyedPairPartitioned();
    KeyedPairFind();
    assert Dist(Hamming, "x", "bbb") == -1;
  }

  /** The word-to-word Hamming distance, on words whose stored length is the
      same m < 2^31, is the mismatch count over those m positions. */
  lemma HammingDistOnOneLength(x: string, y: string, m: nat)
    requires ToU32(|x|) == m && ToU32(|y|) == m && m < INT32_LIMIT
    ensures m <= |x| && m <= |y| && Dist(Hamming, x, y) == Mismatches(x, y, m)
  {
  }

  /** For a query of the root's stored length below 2^31, find on a Hamming
      tree returns exactly the stored words within the limit, each with its
      distance. */
  lemma HammingFindIsRangeFilter(t: Tree, query: string, limit: int)
    requires Partitioned(t, Hamming)
    requires ToU32(|query|) == ToU32(|t.word|) < INT32_LIMIT
    ensures (set h | h in Find(t, query, limit, Hamming)) ==
      (set w | w in Bag(t) && Dist(Hamming, query, w) <= limit :: (w, Dist(Hamming, query, w)))
  {
    HammingTreeOneLength(t);
    var m := ToU32(|t.word|);
    var ws := Stored(t) + {query};
    forall a, b | a in ws && b in ws
      ensures Dist(Hamming, a, b) == Dist(Hamming, b, a)
    {
      HammingDistOnOneLength(a, b, m);
      HammingDistOnOneLength(b, a, m);
      MismatchesSymmetric(a, b, m);
    }
    forall a, b, c | a in ws && b in ws && c in ws
      ensures Dist(Hamming, a, c) <= Dist(Hamming, a, b) + Dist(Hamming, b, c)
    {
      HammingDistOnOneLength(a, c, m);
      HammingDistOnOneLength(a, b, m);
      HammingDistOnOneLength(b, c, m);
      MismatchesTriangle(a, b, c, m);
    }
    FindIsRangeFilter(t, query, limit, Hamming);
  }

  /** In a Hamming tree of words shorter than 2^31, insert adds a word exactly
      when it has the root's length and is not stored yet. */
  lemma HammingTreeDeduplicates(t: Tree, value: string)
    requires Partitioned(t, Hamming)
    requires |value| < INT32_LIMIT && forall w :: w in Bag(t) ==> |w| < INT32_LIMIT
    ensures Insert(t, value, Hamming).1 <==> |value| == |t.word| && value !in Bag(t)
  {
    BagMembers(t, t.word);
    if |value| != |t.word| {
      HammingRefusesOtherLengths(t, value);
    } else {
      HammingTreeOneLength(t);
      forall w | w in Bag(t)
        ensures Dist(Hamming, value, w) <= 0 <==> value == w
      {
        HammingIsMetricOnOneLength(value, w, w);
        HammingEqualLengths(value, w);
      }
      InsertAddsExactlyNewWords(t, value, Hamming);
    }
  }

  /** In an edit-distance tree of words shorter than 2^31, insert adds a word
      exactly when it is not stored yet. */
  lemma EditTreeDeduplicates(t: Tree, value: string)
    requires Partitioned(t, EditDistance)
    requires |value| < INT32_LIMIT && forall w :: w in Bag(t) ==> |w| < INT32_LIMIT
    ensures Insert(t, value, EditDistance).1 <==> value !in Bag(t)
  {
    forall w | w in Bag(t)
      ensures Dist(EditDistance, value, w) <= 0 <==> value == w
    {
      EditDistanceProperties(value, w);
    }
    InsertAddsExactlyNewWords(t, value, EditDistance);
  }

  /** A Hamming tree of words shorter than 2^31 holds each word at most once. */
  lemma HammingTreeHoldsEachWordOnce(t: Tree)
    requires Partitioned(t, Hamming)
    requires forall w :: w in Bag(t) ==> |w| < INT32_LIMIT
    ensures forall w :: Bag(t)[w] <= 1
  {
    forall w | w in Bag(t)
      ensures Dist(Hamming, w, w) <= 0
    {
      HammingIsMetricOnOneLength(w, w, w);
      HammingEqualLengths(w, w);
    }
    PartitionedHoldsEachWordOnce(t, Hamming);
  }

  /** An edit-distance tree of words shorter than 2^31 holds each word at
      most once. */
  lemma EditTreeHoldsEachWordOnce(t: Tree)
    requires Partitioned(t, EditDistance)
    requires forall w :: w in Bag(t) ==> |w| < INT32_LIMIT
    ensures forall w :: Bag(t)[w] <= 1
  {
    forall w | w in Bag(t)
      ensures Dist(EditDistance, w, w) <= 0
    {
      EditDistanceProperties(w, w);
    }
    PartitionedHoldsEachWordOnce(t, EditDistance);
  }

  /** The word-to-word edit distance of words shorter than 2^31 is the edit
      distance itself: it is below 2^31, so the `int` reading keeps it. */
  lemma EditDistOnShortWords(x: string, y: string)
    requires |x| < INT32_LIMIT && |y| < INT32_LIMIT
    ensures Dist(EditDistance, x, y) == EditDistance(x, y)
  {
    EditDistanceProperties(x, y);
  }

  /** For a query and stored words shorter than 2^31, find on an edit-distance
      tree returns exactly the stored words within the limit, each with its
      distance. */
  lemma EditFindIsRangeFilter(t: Tree, query: string, limit: int)
    requires Partitioned(t, EditDistance)
    requires |query| < INT32_LIMIT && forall w :: w in Bag(t) ==> |w| < INT32_LIMIT
    ensures (set h | h in Find(t, query, limit, EditDistance)) ==
      (set w | w in Bag(t) && Dist(EditDistance, query, w) <= limit :: (w, Dist(EditDistance, query, w)))
  {
    var ws := Stored(t) + {query};
    forall a, b | a in ws && b in ws
      ensures Dist(EditDistance, a, b) == Dist(EditDistance, b, a)
    {
      EditDistOnShortWords(a, b);
      EditDistOnShortWords(b, a);
      EditDistanceProperties(a, b);
    }
    forall a, b, c | a in ws && b in ws && c in ws
      ensures Dist(EditDistance, a, c) <= Dist(EditDistance, a, b) + Dist(EditDistance, b, c)
    {
      EditDistOnShortWords(a, c);
      EditDistOnShortWords(a, b);
      EditDistOnShortWords(b, c);
      EditDistanceTriangle(a, b, c);
    }
    FindIsRangeFilter(t, query, limit, EditDistance);
  }
}
