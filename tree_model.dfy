/** The value-level meaning of a BK-tree: a node holds a word and its children
    keyed by their distance from that word.  `Insert` and `Find` are the
    recursive rules that `tree_node::insert` and `tree_node::find` carry out in
    place; the classes in module BkTrees are proved to follow them. */
module TreeModel {
  import opened Metrics

  /** The tree's metric parameter: any function from an ordered pair of strings
      to a `ui`.  It is called as metric(argument, word-in-node). */
  type Metric = (string, string) -> U32

  /** The distance the tree works with: the `ui` result stored in an `int`.
      The Hamming sentinel `U32_MAX` becomes -1 here. */
  function Dist(metric: Metric, a: string, b: string): int
  {
    ToInt32(metric(a, b))
  }

  datatype Option<T> = None | Some(value: T)

  /** A node: its word and a map from distance key to child. */
  datatype Tree = Node(word: string, children: map<int, Tree>)

  /** One reported match: the word and its distance from the query. */
  type Hit = (string, int)

  function Leaf(word: string): Tree
  {
    Node(word, map[])
  }

  lemma NonEmptyHasElement(keys: set<int>)
    requires keys != {}
    ensures exists k :: k in keys
  {
    if forall k :: k !in keys {
      assert false;
    }
  }

  lemma {:induction false} MinExists(keys: set<int>)
    requires keys != {}
    ensures exists k :: k in keys && forall x :: x in keys ==> k <= x
    decreases |keys|
  {
    NonEmptyHasElement(keys);
    var y :| y in keys;
    if keys != {y} {
      MinExists(keys - {y});
      var k :| k in keys - {y} && forall x :: x in keys - {y} ==> k <= x;
      var m := if y < k then y else k;
      forall x | x in keys
        ensures m <= x
      {
        if x != y {
          assert x in keys - {y};
        }
      }
    } else {
      assert forall x :: x in keys ==> y <= x;
    }
  }

  /** The smallest key of a non-empty key set. */
  function MinKey(keys: set<int>): (k: int)
    requires keys != {}
    ensures k in keys && forall x :: x in keys ==> k <= x
  {
    MinExists(keys);
    var k :| k in keys && forall x :: x in keys ==> k <= x;
    k
  }

  /** The keys of a `std::map` in its iteration order (sorted by
      `AscendingSorted`). */
  function Ascending(keys: set<int>): (ks: seq<int>)
    ensures forall k :: k in ks <==> k in keys
    decreases |keys|
  {
    if keys == {} then []
    else
      var k := MinKey(keys);
      [k] + Ascending(keys - {k})
  }

  /** `Ascending` lists the keys in strictly increasing order. */
  lemma {:induction false} AscendingSorted(keys: set<int>)
    ensures forall a, b :: 0 <= a < b < |Ascending(keys)| ==> Ascending(keys)[a] < Ascending(keys)[b]
    decreases |keys|
  {
    if keys != {} {
      var k := MinKey(keys);
      AscendingSorted(keys - {k});
      var rest := Ascending(keys - {k});
      var ks := Ascending(keys);
      assert ks == [k] + rest;
      forall a, b | 0 <= a < b < |ks|
        ensures ks[a] < ks[b]
      {
        assert ks[b] == rest[b - 1] && rest[b - 1] in rest;
        if a == 0 {
          assert rest[b - 1] in keys - {k};
        } else {
          assert ks[a] == rest[a - 1] && rest[a - 1] < rest[b - 1];
        }
      }
    }
  }

  /** The words stored in a tree, one occurrence per node. */
  function Bag(t: Tree): multiset<string>
    decreases t, 1
  {
    multiset{t.word} + BagOver(t, t.children.Keys)
  }

  /** The words stored under the children of `t` whose keys are in `keys`. */
  function BagOver(t: Tree, keys: set<int>): multiset<string>
    requires keys <= t.children.Keys
    decreases t, 0, |keys|
  {
    if keys == {} then multiset{}
    else
      var k := MinKey(keys);
      Bag(t.children[k]) + BagOver(t, keys - {k})
  }

  /** `tree_node::insert`: the result tree and whether a node was added.  A
      distance that is not positive (an equal word, or the Hamming sentinel
      read as -1) adds nothing; otherwise a missing key gets a new leaf and an
      existing key passes the word down to that child. */
  function Insert(t: Tree, value: string, metric: Metric): (r: (Tree, bool))
    ensures r.0.word == t.word
    ensures !r.1 ==> r.0 == t
    ensures r.1 ==> Dist(metric, value, t.word) > 0
    decreases t
  {
    var d := Dist(metric, value, t.word);
    if d <= 0 then (t, false)
    else if d !in t.children then (Node(t.word, t.children[d := Leaf(value)]), true)
    else
      var (c, inserted) := Insert(t.children[d], value, metric);
      assert !inserted ==> t.children[d := c] == t.children;
      (Node(t.word, t.children[d := c]), inserted)
  }

  /** `tree_node::find` (through `m_find_wrapper`): the node itself when its
      distance is within `limit`, then, in ascending key order, the hits of
      every child whose key lies in [d - limit, d + limit]. */
  function Find(t: Tree, query: string, limit: int, metric: Metric): seq<Hit>
    decreases t, 1
  {
    var d := Dist(metric, query, t.word);
    (if d <= limit then [(t.word, d)] else [])
      + FindAlong(t, Ascending(t.children.Keys), 0, d, query, limit, metric)
  }

  /** The hits contributed by the children of `t` keyed by ks[i], ks[i+1], ...,
      in that order, for a query at distance `d` from `t.word`.  `Find` passes
      the map's own keys, so the membership test never fails there; it only
      spares callers a precondition. */
  function FindAlong(t: Tree, ks: seq<int>, i: nat, d: int, query: string, limit: int, metric: Metric): seq<Hit>
    decreases t, 0, |ks| - i
  {
    if i >= |ks| then []
    else
      (if ks[i] in t.children && d - limit <= ks[i] <= d + limit
       then Find(t.children[ks[i]], query, limit, metric) else [])
        + FindAlong(t, ks, i + 1, d, query, limit, metric)
  }

  /** `bk_tree::insert`: an empty tree gets the word as its root. */
  function TreeInsert(root: Option<Tree>, value: string, metric: Metric): (r: (Option<Tree>, bool))
    ensures r.0.Some?
    ensures root.Some? ==> r.0.value.word == root.value.word
    ensures !r.1 ==> r.0 == root
  {
    match root
    case None => (Some(Leaf(value)), true)
    case Some(t) =>
      var (t', inserted) := Insert(t, value, metric);
      (Some(t'), inserted)
  }

  /** The number of nodes of a possibly empty tree. */
  function Count(root: Option<Tree>): nat
  {
    match root
    case None => 0
    case Some(t) => |Bag(t)|
  }

  /** The BK-tree invariant: every key is positive and every word stored under
      the child keyed k is at distance exactly k from the parent's word. */
  ghost predicate Partitioned(t: Tree, metric: Metric)
    decreases t
  {
    forall k :: k in t.children ==>
      k > 0 &&
      (forall w :: w in Bag(t.children[k]) ==> Dist(metric, w, t.word) == k) &&
      Partitioned(t.children[k], metric)
  }

  /** The words a tree stores, each once. */
  ghost function Stored(t: Tree): set<string>
  {
    set w | w in Bag(t)
  }

  /** Among the words of `ws`, the metric read as `int` is symmetric and
      satisfies the triangle inequality. */
  ghost predicate MetricOn(metric: Metric, ws: set<string>)
  {
    (forall a, b :: a in ws && b in ws ==> Dist(metric, a, b) == Dist(metric, b, a)) &&
    (forall a, b, c :: a in ws && b in ws && c in ws ==>
      Dist(metric, a, c) <= Dist(metric, a, b) + Dist(metric, b, c))
  }
}
