/** The BK-tree as the header builds it: nodes that own their children through
    a map from distance key to child, updated in place by `insert`, and the
    tree object that owns the root and counts the nodes.  Each node carries
    its value-level meaning `Model` (a `TreeModel.Tree`), and every operation
    is proved to do to the nodes what `TreeModel.Insert` and `TreeModel.Find`
    do to that value. */
module BkTrees {
  import opened Metrics
  import opened TreeModel
  import opened TreeProperties

  /** Before the children loop of `tree_node::find`, the output holds the
      node's own hit, and what the children add completes the result. */
  lemma FindStart(t: Tree, keys: seq<int>, d: int, query: string, limit: int, metric: Metric,
                  output: seq<Hit>, out: seq<Hit>, total: seq<Hit>)
    requires keys == Ascending(t.children.Keys) && d == Dist(metric, query, t.word)
    requires total == output + TreeModel.Find(t, query, limit, metric)
    requires out == output + if d <= limit then [(t.word, d)] else []
    ensures out + FindAlong(t, keys, 0, d, query, limit, metric) == total
  {
    var self := if d <= limit then [(t.word, d)] else [];
    assert (output + self) + FindAlong(t, keys, 0, d, query, limit, metric)
      == output + (self + FindAlong(t, keys, 0, d, query, limit, metric));
  }

  /** One turn of the children loop of `tree_node::find` keeps the loop's
      account: what is output so far plus what the remaining keys add is the
      whole result. */
  lemma FindStep(t: Tree, keys: seq<int>, i: nat, d: int, query: string, limit: int, metric: Metric,
                 before: seq<Hit>, after: seq<Hit>, total: seq<Hit>)
    requires i < |keys| && keys[i] in t.children
    requires before + FindAlong(t, keys, i, d, query, limit, metric) == total
    requires after == before + if d - limit <= keys[i] <= d + limit
      then TreeModel.Find(t.children[keys[i]], query, limit, metric) else []
    ensures after + FindAlong(t, keys, i + 1, d, query, limit, metric) == total
  {
  }

  /** `tree_node`: a word and the children keyed by their distance from it. */
  class TreeNode {
    const word: string
    var children: map<int, TreeNode>
    ghost var Model: Tree
    ghost var Repr: set<TreeNode>

    /** The node and its subtrees: each child is owned by exactly one key,
        children own disjoint sets of nodes, and `Model` mirrors the nodes. */
    ghost predicate Valid()
      reads this, Repr
      decreases Repr
    {
      this in Repr &&
      Model.word == word &&
      Model.children.Keys == children.Keys &&
      (forall k :: k in children ==>
        children[k] in Repr && children[k].Repr <= Repr && this !in children[k].Repr &&
        children[k].Valid() && children[k].Model == Model.children[k]) &&
      (forall k, k' :: k in children && k' in children && k != k' ==>
        children[k].Repr !! children[k'].Repr)
    }

    /** `tree_node(value)`: a leaf. */
    constructor(value: string)
      ensures Valid() && fresh(Repr)
      ensures Model == Leaf(value)
    {
      word := value;
      children := map[];
      Model := Leaf(value);
      Repr := {this};
    }

    /** `tree_node::insert`: the nodes change as `TreeModel.Insert` says. */
    method Insert(value: string, metric: Metric) returns (inserted: bool)
      requires Valid()
      modifies Repr
      ensures Valid() && fresh(Repr - old(Repr))
      ensures (Model, inserted) == TreeModel.Insert(old(Model), value, metric)
      decreases Repr, 1
    {
      var distance := ToInt32(metric(value, word));
      inserted := false;
      if distance > 0 {
        if distance !in children {
          AttachLeaf(distance, value);
          inserted := true;
        } else {
          inserted := InsertBelow(distance, value, metric);
        }
      }
    }

    /** The new-key branch of `tree_node::insert`: a leaf under key `d`. */
    method AttachLeaf(d: int, value: string)
      requires Valid() && d !in children
      modifies this
      ensures Valid() && fresh(Repr - old(Repr))
      ensures Model == Node(old(Model).word, old(Model).children[d := Leaf(value)])
    {
      var leaf := new TreeNode(value);
      children := children[d := leaf];
      Model := Node(word, Model.children[d := leaf.Model]);
      Repr := Repr + leaf.Repr;
    }

    /** The existing-key branch of `tree_node::insert`: the child under key
        `d` inserts the word. */
    method InsertBelow(d: int, value: string, metric: Metric) returns (inserted: bool)
      requires Valid() && d in children
      modifies Repr
      ensures Valid() && fresh(Repr - old(Repr))
      ensures var (c, added) := TreeModel.Insert(old(Model).children[d], value, metric);
        Model == Node(old(Model).word, old(Model).children[d := c]) && inserted == added
      decreases Repr, 0
    {
      var child := children[d];
      ghost var before := child.Repr;
      inserted := child.Insert(value, metric);
      forall k | k in children && k != d
        ensures children[k].Valid() && children[k].Repr !! child.Repr
      {
        assert children[k].Repr !! before;
      }
      Adopt(d);
    }

    /** Takes back the child under key `d` after it changed: `Model` and
        `Repr` catch up with it. */
    ghost method Adopt(d: int)
      requires this in Repr && Model.word == word && Model.children.Keys == children.Keys
      requires d in children && this !in children[d].Repr && children[d].Valid()
      requires forall k :: k in children && k != d ==>
        children[k] in Repr && children[k].Repr <= Repr && this !in children[k].Repr &&
        children[k].Valid() && children[k].Model == Model.children[k]
      requires forall k, k' :: k in children && k' in children && k != k' ==>
        children[k].Repr !! children[k'].Repr
      modifies this
      ensures Valid()
      ensures Model == Node(old(Model).word, old(Model).children[d := children[d].Model])
      ensures Repr == old(Repr) + children[d].Repr
    {
      Model := Node(word, Model.children[d := children[d].Model]);
      Repr := Repr + children[d].Repr;
      forall k | k in children
        ensures children[k] in Repr && children[k].Repr <= Repr && this !in children[k].Repr
        ensures children[k].Valid() && children[k].Model == Model.children[k]
      {
      }
    }

    /** `tree_node::find`: appends to `output` the hits `TreeModel.Find`
        describes, visiting the children in ascending key order. */
    method Find(output: seq<Hit>, query: string, limit: int, metric: Metric) returns (out: seq<Hit>)
      requires Valid()
      ensures out == output + TreeModel.Find(Model, query, limit, metric)
      decreases Repr, 1
    {
      var distance := ToInt32(metric(query, word));
      out := output;
      if distance <= limit {
        out := out + [(word, distance)];
      }
      ghost var t := Model;
      ghost var total := output + TreeModel.Find(t, query, limit, metric);
      var keys := Ascending(children.Keys);
      FindStart(t, keys, distance, query, limit, metric, output, out, total);
      var i := 0;
      while i < |keys|
        invariant 0 <= i <= |keys|
        invariant out + FindAlong(t, keys, i, distance, query, limit, metric) == total
      {
        var key := keys[i];
        ghost var before := out;
        out := VisitChild(out, key, distance, query, limit, metric);
        FindStep(t, keys, i, distance, query, limit, metric, before, out, total);
        i := i + 1;
      }
    }

    /** One turn of the loop in `tree_node::find`: the child under `key` adds
        its hits when `key` lies in [distance - limit, distance + limit]. */
    method VisitChild(output: seq<Hit>, key: int, distance: int, query: string, limit: int, metric: Metric)
      returns (out: seq<Hit>)
      requires Valid() && key in children
      ensures out == output + if distance - limit <= key <= distance + limit
        then TreeModel.Find(Model.children[key], query, limit, metric) else []
      decreases Repr, 0
    {
      out := output;
      if distance - limit <= key && key <= distance + limit {
        var child := children[key];
        assert child.Repr < Repr;
        out := child.Find(out, query, limit, metric);
      }
    }

    /** `tree_node::m_find_wrapper`: the hits of `Find` starting from no output. */
    method FindWrapper(query: string, limit: int, metric: Metric) returns (output: seq<Hit>)
      requires Valid()
      ensures output == TreeModel.Find(Model, query, limit, metric)
    {
      output := Find([], query, limit, metric);
    }
  }

  /** `bk_tree`: the metric, the possibly absent root and the node count. */
  class BkTree {
    const metric: Metric
    var root: TreeNode?
    var treeSize: nat
    ghost var Model: Option<Tree>
    ghost var Repr: set<object>

    /** The nodes mirror `Model`, `Model` keeps the BK-tree invariant, and the
        stored size is the number of nodes. */
    ghost predicate Valid()
      reads this, Repr
    {
      this in Repr &&
      (root == null ==> Model == None) &&
      (root != null ==>
        root in Repr && root.Repr <= Repr &&
        root.Valid() && Model == Some(root.Model)) &&
      (Model.Some? ==> Partitioned(Model.value, metric)) &&
      treeSize == Count(Model)
    }

    /** `bk_tree(distance)`: an empty tree of size 0. */
    constructor(distance: Metric)
      ensures Valid() && fresh(Repr)
      ensures metric == distance && Model == None && treeSize == 0
    {
      metric := distance;
      root := null;
      treeSize := 0;
      Model := None;
      Repr := {this};
    }

    /** `bk_tree::insert`: an empty tree takes the word as root, otherwise the
        root inserts it; the size grows by one exactly when a node was added. */
    method Insert(value: string) returns (inserted: bool)
      requires Valid()
      modifies Repr
      ensures Valid() && fresh(Repr - old(Repr))
      ensures (Model, inserted) == TreeInsert(old(Model), value, metric)
      ensures treeSize == old(treeSize) + (if inserted then 1 else 0)
    {
      ghost var before := Model;
      ghost var (after, added) := TreeInsert(before, value, metric);
      TreeInsertCount(before, value, metric);
      if root == null {
        root := new TreeNode(value);
        treeSize := 1;
        inserted := true;
      } else {
        inserted := root.Insert(value, metric);
        if inserted {
          treeSize := treeSize + 1;
        }
      }
      assert after == Some(root.Model) && inserted == added;
      Adopt();
    }

    /** Brings `Model` and `Repr` up to date after the root changed. */
    ghost method Adopt()
      requires this in Repr && root != null && root.Valid()
      requires Partitioned(root.Model, metric) && treeSize == Count(Some(root.Model))
      modifies this
      ensures Valid()
      ensures Model == Some(root.Model) && Repr == old(Repr) + root.Repr
      ensures root == old(root) && treeSize == old(treeSize)
    {
      Repr := Repr + root.Repr;
      Model := Some(root.Model);
    }

    /** `bk_tree::find`: the hits of the root's search.  The header
        dereferences the root unconditionally, so the tree must not be empty. */
    method Find(query: string, limit: int) returns (output: seq<Hit>)
      requires Valid() && Model.Some?
      ensures output == TreeModel.Find(Model.value, query, limit, metric)
    {
      output := root.FindWrapper(query, limit, metric);
    }

    /** `bk_tree::size`: the number of nodes. */
    function Size(): (n: nat)
      requires Valid()
      reads this, Repr
      ensures n == Count(Model)
    {
      treeSize
    }
  }
}
