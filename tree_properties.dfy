/** Properties of the BK-tree rules: what `Insert` adds, the invariant it keeps,
    and that `Find` reports exactly the stored words within the limit when the
    metric is symmetric and satisfies the triangle inequality among the stored
    words and the query. */
module TreeProperties {
  import opened Metrics
  import opened TreeModel

  // ---------------------------------------------------------------------------
  // Bookkeeping on the words stored under a set of keys

  /** The words under a set of keys can be split off at any key, not only at
      the smallest one. */
  lemma {:induction false} BagOverSplit(t: Tree, keys: set<int>, k: int)
    requires keys <= t.children.Keys && k in keys
    ensures BagOver(t, keys) == Bag(t.children[k]) + BagOver(t, keys - {k})
    decreases |keys|
  {
    var m := MinKey(keys);
    if m != k {
      var rest := keys - {m} - {k};
      assert rest == keys - {k} - {m};
      assert m in keys - {k};
      var m' := MinKey(keys - {k});
      assert m' <= m && m <= m';
      calc {
        BagOver(t, keys);
        Bag(t.children[m]) + BagOver(t, keys - {m});
        { BagOverSplit(t, keys - {m}, k); }
        Bag(t.children[m]) + (Bag(t.children[k]) + BagOver(t, rest));
        Bag(t.children[k]) + (Bag(t.children[m]) + BagOver(t, rest));
        Bag(t.children[k]) + BagOver(t, keys - {k});
      }
    }
  }

  /** Only the children under the given keys matter. */
  lemma {:induction false} BagOverSameChildren(t: Tree, u: Tree, keys: set<int>)
    requires keys <= t.children.Keys && keys <= u.children.Keys
    requires forall k :: k in keys ==> t.children[k] == u.children[k]
    ensures BagOver(t, keys) == BagOver(u, keys)
    decreases |keys|
  {
    if keys != {} {
      BagOverSameChildren(t, u, keys - {MinKey(keys)});
    }
  }

  lemma {:induction false} BagOverMembers(t: Tree, keys: set<int>, w: string)
    requires keys <= t.children.Keys
    ensures w in BagOver(t, keys) <==> exists k :: k in keys && w in Bag(t.children[k])
    decreases |keys|
  {
    if keys != {} {
      var m := MinKey(keys);
      BagOverMembers(t, keys - {m}, w);
      if exists k :: k in keys && w in Bag(t.children[k]) {
        var k :| k in keys && w in Bag(t.children[k]);
        if k != m {
          assert k in keys - {m};
        }
      }
    }
  }

  /** A word is stored in a tree exactly when it is the root's word or stored
      under one of the children. */
  lemma BagMembers(t: Tree, w: string)
    ensures w in Bag(t) <==> w == t.word || exists k :: k in t.children && w in Bag(t.children[k])
  {
    BagOverMembers(t, t.children.Keys, w);
  }

  // ---------------------------------------------------------------------------
  // Insert

  lemma MultisetCancel(a: multiset<string>, b: multiset<string>, x: multiset<string>)
    requires a + x == b + x
    ensures a == b
  {
    assert forall e :: a[e] == (a + x)[e] - x[e] && b[e] == (b + x)[e] - x[e];
  }

  /** Attaching a subtree under a new key adds its words. */
  lemma BagAttach(t: Tree, d: int, c: Tree)
    requires d !in t.children
    ensures Bag(Node(t.word, t.children[d := c])) == Bag(t) + Bag(c)
  {
    var t' := Node(t.word, t.children[d := c]);
    calc {
      Bag(t');
      multiset{t.word} + BagOver(t', t'.children.Keys);
      { BagOverSplit(t', t'.children.Keys, d); }
      multiset{t.word} + (Bag(c) + BagOver(t', t'.children.Keys - {d}));
      { assert t'.children.Keys - {d} == t.children.Keys;
        BagOverSameChildren(t', t, t.children.Keys); }
      multiset{t.word} + (Bag(c) + BagOver(t, t.children.Keys));
      Bag(t) + Bag(c);
    }
  }

  /** Replacing the subtree under a key trades its words for the new ones. */
  lemma BagReplace(t: Tree, d: int, c: Tree)
    requires d in t.children
    ensures Bag(Node(t.word, t.children[d := c])) + Bag(t.children[d]) == Bag(t) + Bag(c)
  {
    var t' := Node(t.word, t.children[d := c]);
    var rest := t.children.Keys - {d};
    calc {
      Bag(t');
      multiset{t.word} + BagOver(t', t'.children.Keys);
      { assert t'.children.Keys == t.children.Keys;
        BagOverSplit(t', t'.children.Keys, d); }
      multiset{t.word} + (Bag(c) + BagOver(t', rest));
      { BagOverSameChildren(t', t, rest); }
      multiset{t.word} + (Bag(c) + BagOver(t, rest));
    }
    calc {
      Bag(t);
      multiset{t.word} + BagOver(t, t.children.Keys);
      { BagOverSplit(t, t.children.Keys, d); }
      multiset{t.word} + (Bag(t.children[d]) + BagOver(t, rest));
    }
  }

  /** Insert adds the word exactly once when it reports success and nothing
      otherwise; so the node count grows by one exactly on success. */
  lemma {:induction false} InsertBag(t: Tree, value: string, metric: Metric)
    ensures var (t', inserted) := Insert(t, value, metric);
      Bag(t') == Bag(t) + (if inserted then multiset{value} else multiset{})
    decreases t
  {
    var d := Dist(metric, value, t.word);
    if d > 0 {
      if d !in t.children {
        BagAttach(t, d, Leaf(value));
        assert Bag(Leaf(value)) == multiset{value};
      } else {
        var (c, inserted) := Insert(t.children[d], value, metric);
        assert Insert(t, value, metric) == (Node(t.word, t.children[d := c]), inserted);
        InsertBag(t.children[d], value, metric);
        BagReplace(t, d, c);
        var added := if inserted then multiset{value} else multiset{};
        assert Bag(c) == Bag(t.children[d]) + added;
        MultisetCancel(Bag(Node(t.word, t.children[d := c])), Bag(t) + added, Bag(t.children[d]));
      }
    }
  }

  /** Insert keeps every key equal to the distance of every word below it. */
  lemma {:induction false} InsertKeepsPartitioned(t: Tree, value: string, metric: Metric)
    requires Partitioned(t, metric)
    ensures Partitioned(Insert(t, value, metric).0, metric)
    decreases t
  {
    var d := Dist(metric, value, t.word);
    var (t', inserted) := Insert(t, value, metric);
    if inserted {
      if d !in t.children {
        assert Bag(Leaf(value)) == multiset{value};
      } else {
        InsertKeepsPartitioned(t.children[d], value, metric);
        InsertBag(t.children[d], value, metric);
      }
      forall k | k in t'.children
        ensures k > 0
        ensures forall w :: w in Bag(t'.children[k]) ==> Dist(metric, w, t.word) == k
        ensures Partitioned(t'.children[k], metric)
      {
        if k != d {
          assert t'.children[k] == t.children[k];
        }
      }
    }
  }

  /** A new child's key is its distance from the parent: the direct form of the
      invariant. */
  lemma ChildKeyIsDistance(t: Tree, metric: Metric, k: int)
    requires Partitioned(t, metric) && k in t.children
    ensures k > 0 && k == Dist(metric, t.children[k].word, t.word)
  {
    assert t.children[k].word in Bag(t.children[k]);
  }

  /** A stored word at distance <= 0 from itself is refused again, and the tree
      is left as it was. */
  lemma {:induction false} StoredWordRefused(t: Tree, value: string, metric: Metric)
    requires Partitioned(t, metric)
    requires value in Bag(t)
    requires Dist(metric, value, value) <= 0
    ensures Insert(t, value, metric) == (t, false)
    decreases t
  {
    if value != t.word {
      BagMembers(t, value);
      var k :| k in t.children && value in Bag(t.children[k]);
      StoredWordRefused(t.children[k], value, metric);
    }
  }

  /** A word at positive distance from every stored word is always added. */
  lemma {:induction false} NewWordInserted(t: Tree, value: string, metric: Metric)
    requires forall w :: w in Bag(t) ==> Dist(metric, value, w) > 0
    ensures Insert(t, value, metric).1
    decreases t
  {
    BagMembers(t, t.word);
    var d := Dist(metric, value, t.word);
    if d in t.children {
      var c := t.children[d];
      forall w | w in Bag(c)
        ensures Dist(metric, value, w) > 0
      {
        BagMembers(t, w);
      }
      NewWordInserted(c, value, metric);
    }
  }

  /** When the metric, from the new word to each stored word, is non-positive
      exactly on equal words, insert adds the word exactly when it is not
      stored yet. */
  lemma InsertAddsExactlyNewWords(t: Tree, value: string, metric: Metric)
    requires Partitioned(t, metric)
    requires forall w :: w in Bag(t) ==> (Dist(metric, value, w) <= 0 <==> value == w)
    ensures Insert(t, value, metric).1 <==> value !in Bag(t)
  {
    if value in Bag(t) {
      StoredWordRefused(t, value, metric);
    } else {
      NewWordInserted(t, value, metric);
    }
  }

  /** The children under `keys` hold a word at most once between them, when
      each child holds it at most once: the word's distance from the parent
      names the one child it can be under. */
  lemma {:induction false} BagOverOnce(t: Tree, keys: set<int>, metric: Metric, w: string)
    requires keys <= t.children.Keys && Partitioned(t, metric)
    requires forall k :: k in keys ==> Bag(t.children[k])[w] <= 1
    ensures BagOver(t, keys)[w] <= 1
    decreases |keys|
  {
    if keys != {} {
      var m := MinKey(keys);
      BagOverOnce(t, keys - {m}, metric, w);
      if w in Bag(t.children[m]) {
        BagOverMembers(t, keys - {m}, w);
      }
    }
  }

  /** A partitioned tree holds each word at most once when every stored word
      is at non-positive distance from itself: the root's word cannot sit
      under a positive key, and a word under two keys would have two
      distances from the parent. */
  lemma {:induction false} PartitionedHoldsEachWordOnce(t: Tree, metric: Metric)
    requires Partitioned(t, metric)
    requires forall w :: w in Bag(t) ==> Dist(metric, w, w) <= 0
    ensures forall w :: Bag(t)[w] <= 1
    decreases t
  {
    forall k | k in t.children
      ensures forall w :: Bag(t.children[k])[w] <= 1
    {
      forall w | w in Bag(t.children[k])
        ensures w in Bag(t)
      {
        BagMembers(t, w);
      }
      PartitionedHoldsEachWordOnce(t.children[k], metric);
    }
    forall w
      ensures Bag(t)[w] <= 1
    {
      BagOverOnce(t, t.children.Keys, metric, w);
      if w == t.word {
        BagOverMembers(t, t.children.Keys, w);
        BagMembers(t, w);
      }
    }
  }

  /** The tree-level insert: an empty tree gets a root and size 1; otherwise the
      size grows by one exactly when the root's insert succeeds; the invariant
      holds afterwards. */
  lemma TreeInsertCount(root: Option<Tree>, value: string, metric: Metric)
    requires root.Some? ==> Partitioned(root.value, metric)
    ensures var (root', inserted) := TreeInsert(root, value, metric);
      root'.Some? && Partitioned(root'.value, metric) &&
      Count(root') == Count(root) + (if inserted then 1 else 0) &&
      (root.None? ==> root' == Some(Leaf(value)) && inserted)
  {
    if root.Some? {
      InsertBag(root.value, value, metric);
      InsertKeepsPartitioned(root.value, value, metric);
    } else {
      assert Bag(Leaf(value)) == multiset{value};
    }
  }

  // ---------------------------------------------------------------------------
  // Find

  lemma {:induction false} FindSound(t: Tree, query: string, limit: int, metric: Metric, h: Hit)
    requires h in Find(t, query, limit, metric)
    ensures h.0 in Bag(t) && h.1 == Dist(metric, query, h.0) && h.1 <= limit
    decreases t, 1
  {
    var d := Dist(metric, query, t.word);
    BagMembers(t, h.0);
    if !(d <= limit && h == (t.word, d)) {
      FindAlongSound(t, Ascending(t.children.Keys), 0, d, query, limit, metric, h);
    }
  }

  lemma {:induction false} FindAlongSound(t: Tree, ks: seq<int>, i: nat, d: int, query: string, limit: int, metric: Metric, h: Hit)
    requires h in FindAlong(t, ks, i, d, query, limit, metric)
    ensures h.0 in Bag(t) && h.1 == Dist(metric, query, h.0) && h.1 <= limit
    decreases t, 0, |ks| - i
  {
    var k := ks[i];
    if k in t.children && d - limit <= k <= d + limit && h in Find(t.children[k], query, limit, metric) {
      FindSound(t.children[k], query, limit, metric, h);
      BagMembers(t, h.0);
    } else {
      FindAlongSound(t, ks, i + 1, d, query, limit, metric, h);
    }
  }

  /** Find descends only into children whose key lies within `limit` of the
      query's distance to the node. */
  lemma {:induction false} FindAlongWindow(t: Tree, ks: seq<int>, i: nat, d: int, query: string, limit: int, metric: Metric, h: Hit)
    requires h in FindAlong(t, ks, i, d, query, limit, metric)
    ensures exists k :: k in t.children && d - limit <= k <= d + limit && h in Find(t.children[k], query, limit, metric)
    decreases |ks| - i
  {
    var k := ks[i];
    if !(k in t.children && d - limit <= k <= d + limit && h in Find(t.children[k], query, limit, metric)) {
      FindAlongWindow(t, ks, i + 1, d, query, limit, metric, h);
    }
  }

  /** A hit is the node itself (at distance d <= limit) or comes from a child
      whose key is within [d - limit, d + limit]. */
  lemma FindPrunesByKey(t: Tree, query: string, limit: int, metric: Metric, h: Hit)
    requires h in Find(t, query, limit, metric)
    ensures var d := Dist(metric, query, t.word);
      (h == (t.word, d) && d <= limit) ||
      exists k :: k in t.children && d - limit <= k <= d + limit && h in Find(t.children[k], query, limit, metric)
  {
    var d := Dist(metric, query, t.word);
    if !(h == (t.word, d) && d <= limit) {
      FindAlongWindow(t, Ascending(t.children.Keys), 0, d, query, limit, metric, h);
    }
  }

  /** With a negative limit the window [d - limit, d + limit] is empty, so the
      children loop reports nothing. */
  lemma {:induction false} FindAlongNegativeLimit(t: Tree, ks: seq<int>, i: nat, d: int, query: string, limit: int, metric: Metric)
    requires limit < 0
    ensures FindAlong(t, ks, i, d, query, limit, metric) == []
    decreases |ks| - i
  {
    if i < |ks| {
      FindAlongNegativeLimit(t, ks, i + 1, d, query, limit, metric);
    }
  }

  lemma {:induction false} FindAlongIncludes(t: Tree, ks: seq<int>, i: nat, d: int, query: string, limit: int, metric: Metric, j: nat, h: Hit)
    requires i <= j < |ks| && ks[j] in t.children
    requires d - limit <= ks[j] <= d + limit && h in Find(t.children[ks[j]], query, limit, metric)
    ensures h in FindAlong(t, ks, i, d, query, limit, metric)
    decreases |ks| - i
  {
    var here := if ks[i] in t.children && d - limit <= ks[i] <= d + limit
      then Find(t.children[ks[i]], query, limit, metric) else [];
    var rest := FindAlong(t, ks, i + 1, d, query, limit, metric);
    assert FindAlong(t, ks, i, d, query, limit, metric) == here + rest;
    if i != j {
      FindAlongIncludes(t, ks, i + 1, d, query, limit, metric, j, h);
      assert h in rest;
    } else {
      assert h in here;
    }
  }

  /** The words stored under a child are stored in the tree. */
  lemma StoredChild(t: Tree, k: int)
    requires k in t.children
    ensures Stored(t.children[k]) <= Stored(t)
  {
    forall w | w in Stored(t.children[k])
      ensures w in Stored(t)
    {
      BagMembers(t, w);
    }
  }

  /** The metric properties among a set of words hold among any of its subsets. */
  lemma MetricOnSubset(metric: Metric, small: set<string>, big: set<string>)
    requires small <= big && MetricOn(metric, big)
    ensures MetricOn(metric, small)
  {
  }

  /** The pruning step of find is safe: if w lies within `limit` of the query,
      w's distance from the node's word x lies within `limit` of the query's. */
  lemma WindowHolds(metric: Metric, ws: set<string>, query: string, x: string, w: string, limit: int)
    requires MetricOn(metric, ws) && query in ws && x in ws && w in ws
    requires Dist(metric, query, w) <= limit
    ensures Dist(metric, query, x) - limit <= Dist(metric, w, x) <= Dist(metric, query, x) + limit
  {
    assert Dist(metric, query, x) <= Dist(metric, query, w) + Dist(metric, w, x);
    assert Dist(metric, w, x) <= Dist(metric, w, query) + Dist(metric, query, x);
  }

  /** With a metric that is symmetric and satisfies the triangle inequality
      among the stored words and the query, every stored word within the limit
      is reported. */
  lemma {:induction false} FindComplete(t: Tree, query: string, limit: int, metric: Metric, w: string)
    requires Partitioned(t, metric) && MetricOn(metric, Stored(t) + {query})
    requires w in Bag(t) && Dist(metric, query, w) <= limit
    ensures (w, Dist(metric, query, w)) in Find(t, query, limit, metric)
    decreases t
  {
    var d := Dist(metric, query, t.word);
    if w != t.word {
      BagMembers(t, w);
      BagMembers(t, t.word);
      var k :| k in t.children && w in Bag(t.children[k]);
      assert Dist(metric, w, t.word) == k;
      WindowHolds(metric, Stored(t) + {query}, query, t.word, w, limit);
      StoredChild(t, k);
      MetricOnSubset(metric, Stored(t.children[k]) + {query}, Stored(t) + {query});
      FindComplete(t.children[k], query, limit, metric, w);
      var ks := Ascending(t.children.Keys);
      var j :| 0 <= j < |ks| && ks[j] == k;
      FindAlongIncludes(t, ks, 0, d, query, limit, metric, j, (w, Dist(metric, query, w)));
    }
  }

  /** With such a metric, find returns exactly what a linear scan over the
      stored words would. */
  lemma FindIsRangeFilter(t: Tree, query: string, limit: int, metric: Metric)
    requires Partitioned(t, metric) && MetricOn(metric, Stored(t) + {query})
    ensures (set h | h in Find(t, query, limit, metric)) ==
      (set w | w in Bag(t) && Dist(metric, query, w) <= limit :: (w, Dist(metric, query, w)))
  {
    forall h | h in Find(t, query, limit, metric)
      ensures h.0 in Bag(t) && h.1 == Dist(metric, query, h.0) && h.1 <= limit
    {
      FindSound(t, query, limit, metric, h);
    }
    forall w | w in Bag(t) && Dist(metric, query, w) <= limit
      ensures (w, Dist(metric, query, w)) in Find(t, query, limit, metric)
    {
      FindComplete(t, query, limit, metric, w);
    }
  }
}
