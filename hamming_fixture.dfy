/** The Hamming test fixture of the library: ten words inserted one by one
    into an empty Hamming tree.  Four of them have another length than the
    root "tall"; their distance reads as -1 and they are refused, so the tree
    ends with six nodes. */
module HammingFixture {
  import opened Metrics
  import opened TreeModel
  import opened TreeProperties

  /** Inserts the words one by one into a possibly empty tree; returns the
      final tree and how many of the inserts reported true. */
  function InsertAll(root: Option<Tree>, words: seq<string>, metric: Metric): (r: (Option<Tree>, nat))
    ensures r.1 <= |words|
    ensures words != [] ==> r.0.Some?
    decreases |words|
  {
    if words == [] then (root, 0)
    else
      var step := TreeInsert(root, words[0], metric);
      var rest := InsertAll(step.0, words[1..], metric);
      (rest.0, rest.1 + if step.1 then 1 else 0)
  }

  /** The node count grows by the number of successful inserts, and the
      BK-tree invariant survives every step. */
  lemma {:induction false} InsertAllCount(root: Option<Tree>, words: seq<string>, metric: Metric)
    requires root.Some? ==> Partitioned(root.value, metric)
    ensures var (last, count) := InsertAll(root, words, metric);
      Count(last) == Count(root) + count && (last.Some? ==> Partitioned(last.value, metric))
    decreases |words|
  {
    if words != [] {
      TreeInsertCount(root, words[0], metric);
      var (next, inserted) := TreeInsert(root, words[0], metric);
      InsertAllCount(next, words[1..], metric);
    }
  }

  /** Inserting `a + b` is inserting `a`, then `b` into the result. */
  lemma {:induction false} InsertAllAppend(root: Option<Tree>, a: seq<string>, b: seq<string>, metric: Metric)
    ensures var (mid, m) := InsertAll(root, a, metric);
      InsertAll(root, a + b, metric) == (InsertAll(mid, b, metric).0, m + InsertAll(mid, b, metric).1)
    decreases |a|
  {
    if a == [] {
      assert a + b == b;
    } else {
      var (next, inserted) := TreeInsert(root, a[0], metric);
      InsertAllAppend(next, a[1..], b, metric);
      assert (a + b)[0] == a[0] && (a + b)[1..] == a[1..] + b;
    }
  }

  /** One step of `InsertAll`, given the result of the first insert. */
  lemma InsertAllStep(root: Option<Tree>, words: seq<string>, metric: Metric, next: Option<Tree>, inserted: bool)
    requires words != [] && TreeInsert(root, words[0], metric) == (next, inserted)
    ensures InsertAll(root, words, metric) ==
      (InsertAll(next, words[1..], metric).0, InsertAll(next, words[1..], metric).1 + if inserted then 1 else 0)
  {
  }

  /** The words of the test fixture, in insertion order. */
  const Words: seq<string> :=
    ["tall", "tell", "teel", "feel", "tally", "tuck", "belly", "kelly", "kill", "tal"]

  /** The tree after "tall", "tell", "teel" and "feel". */
  const T4: Tree := Node("tall", map[1 := Leaf("tell"), 2 := Leaf("teel"), 3 := Leaf("feel")])
  /** ... after "tuck" goes under "feel" at distance 4. */
  const T6: Tree := Node("tall", map[1 := Leaf("tell"), 2 := Leaf("teel"), 3 := Node("feel", map[4 := Leaf("tuck")])])
  /** ... after "kill" goes under "teel" at distance 3. */
  const T9: Tree := Node("tall", map[1 := Leaf("tell"), 2 := Node("teel", map[3 := Leaf("kill")]),
                                     3 := Node("feel", map[4 := Leaf("tuck")])])

  /** Hamming distance of two four-letter words, position by position. */
  lemma HammingOfFour(a: string, b: string)
    requires |a| == 4 && |b| == 4
    ensures Hamming(a, b) == (if a[0] != b[0] then 1 else 0) + (if a[1] != b[1] then 1 else 0)
                           + (if a[2] != b[2] then 1 else 0) + (if a[3] != b[3] then 1 else 0)
  {
    assert Mismatches(a, b, 1) == (if a[0] != b[0] then 1 else 0);
    assert Mismatches(a, b, 2) == Mismatches(a, b, 1) + (if a[1] != b[1] then 1 else 0);
    assert Mismatches(a, b, 3) == Mismatches(a, b, 2) + (if a[2] != b[2] then 1 else 0);
    assert Mismatches(a, b, 4) == Mismatches(a, b, 3) + (if a[3] != b[3] then 1 else 0);
  }

  /** The distances the fixture's inserts compute. */
  lemma FixtureDistances()
    ensures Dist(Hamming, "tell", "tall") == 1 && Dist(Hamming, "teel", "tall") == 2
    ensures Dist(Hamming, "feel", "tall") == 3 && Dist(Hamming, "tuck", "tall") == 3
    ensures Dist(Hamming, "tuck", "feel") == 4 && Dist(Hamming, "kill", "tall") == 2
    ensures Dist(Hamming, "kill", "teel") == 3
    ensures Dist(Hamming, "tally", "tall") == -1 && Dist(Hamming, "belly", "tall") == -1
    ensures Dist(Hamming, "kelly", "tall") == -1 && Dist(Hamming, "tal", "tall") == -1
  {
    var tall, tell, teel, feel, tuck, kill := "tall", "tell", "teel", "feel", "tuck", "kill";
    assert tall[0] == 't' && tall[1] == 'a' && tall[2] == 'l' && tall[3] == 'l';
    assert tell[0] == 't' && tell[1] == 'e' && tell[2] == 'l' && tell[3] == 'l';
    assert teel[0] == 't' && teel[1] == 'e' && teel[2] == 'e' && teel[3] == 'l';
    assert feel[0] == 'f' && feel[1] == 'e' && feel[2] == 'e' && feel[3] == 'l';
    assert tuck[0] == 't' && tuck[1] == 'u' && tuck[2] == 'c' && tuck[3] == 'k';
    assert kill[0] == 'k' && kill[1] == 'i' && kill[2] == 'l' && kill[3] == 'l';
    HammingOfFour(tell, tall);
    HammingOfFour(teel, tall);
    HammingOfFour(feel, tall);
    HammingOfFour(tuck, tall);
    HammingOfFour(tuck, feel);
    HammingOfFour(kill, tall);
    HammingOfFour(kill, teel);
  }

  /** The first four inserts of the fixture: each word is at a new distance
      from "tall". */
  lemma HeadSteps()
    ensures TreeInsert(None, "tall", Hamming) == (Some(Leaf("tall")), true)
    ensures Insert(Leaf("tall"), "tell", Hamming) == (Node("tall", map[1 := Leaf("tell")]), true)
    ensures Insert(Node("tall", map[1 := Leaf("tell")]), "teel", Hamming)
      == (Node("tall", map[1 := Leaf("tell"), 2 := Leaf("teel")]), true)
    ensures Insert(Node("tall", map[1 := Leaf("tell"), 2 := Leaf("teel")]), "feel", Hamming) == (T4, true)
  {
    FixtureDistances();
  }

  /** The last six inserts: the words of another length are refused, "tuck"
      and "kill" go one level down. */
  lemma TailSteps()
    ensures Insert(T4, "tally", Hamming) == (T4, false)
    ensures Insert(T4, "tuck", Hamming) == (T6, true)
    ensures Insert(T6, "belly", Hamming) == (T6, false)
    ensures Insert(T6, "kelly", Hamming) == (T6, false)
    ensures Insert(T6, "kill", Hamming) == (T9, true)
    ensures Insert(T9, "tal", Hamming) == (T9, false)
  {
    FixtureDistances();
    assert Insert(Leaf("feel"), "tuck", Hamming) == (Node("feel", map[4 := Leaf("tuck")]), true);
    assert T4.children[3] == Leaf("feel") && T4.children[3 := T6.children[3]] == T6.children;
    assert Insert(Leaf("teel"), "kill", Hamming) == (Node("teel", map[3 := Leaf("kill")]), true);
    assert T6.children[2] == Leaf("teel") && T6.children[2 := T9.children[2]] == T9.children;
  }

  /** "tall" becomes the root; "tell", "teel", "feel" its children 1, 2, 3. */
  lemma FixtureHead()
    ensures InsertAll(None, ["tall", "tell", "teel", "feel"], Hamming) == (Some(T4), 4)
  {
    HeadSteps();
    var ws := ["tall", "tell", "teel", "feel"];
    assert ws[1..] == ["tell", "teel", "feel"] && ws[1..][1..] == ["teel", "feel"];
    assert ws[1..][1..][1..] == ["feel"] && ws[1..][1..][1..][1..] == [];
    var t2 := Node("tall", map[1 := Leaf("tell")]);
    var t3 := Node("tall", map[1 := Leaf("tell"), 2 := Leaf("teel")]);
    InsertAllStep(Some(t3), ws[1..][1..][1..], Hamming, Some(T4), true);
    InsertAllStep(Some(t2), ws[1..][1..], Hamming, Some(t3), true);
    InsertAllStep(Some(Leaf("tall")), ws[1..], Hamming, Some(t2), true);
    InsertAllStep(None, ws, Hamming, Some(Leaf("tall")), true);
  }

  /** "tally" is refused, "tuck" goes under "feel", "belly" is refused. */
  lemma FixtureMiddle()
    ensures InsertAll(Some(T4), ["tally", "tuck", "belly"], Hamming) == (Some(T6), 1)
  {
    TailSteps();
    var ws := ["tally", "tuck", "belly"];
    assert ws[1..] == ["tuck", "belly"] && ws[1..][1..] == ["belly"] && ws[1..][1..][1..] == [];
    InsertAllStep(Some(T6), ws[1..][1..], Hamming, Some(T6), false);
    InsertAllStep(Some(T4), ws[1..], Hamming, Some(T6), true);
    InsertAllStep(Some(T4), ws, Hamming, Some(T4), false);
  }

  /** "kelly" is refused, "kill" goes under "teel", "tal" is refused. */
  lemma FixtureLast()
    ensures InsertAll(Some(T6), ["kelly", "kill", "tal"], Hamming) == (Some(T9), 1)
  {
    TailSteps();
    var ws := ["kelly", "kill", "tal"];
    assert ws[1..] == ["kill", "tal"] && ws[1..][1..] == ["tal"] && ws[1..][1..][1..] == [];
    InsertAllStep(Some(T9), ws[1..][1..], Hamming, Some(T9), false);
    InsertAllStep(Some(T6), ws[1..], Hamming, Some(T9), true);
    InsertAllStep(Some(T6), ws, Hamming, Some(T6), false);
  }

  /** The fixture's ten inserts build `T9`, and four of them report false:
      the words of another length than "tall". */
  lemma HammingFixtureTree()
    ensures InsertAll(None, Words, Hamming) == (Some(T9), 6)
  {
    var a, b, c := ["tall", "tell", "teel", "feel"], ["tally", "tuck", "belly"], ["kelly", "kill", "tal"];
    assert Words == a + (b + c);
    FixtureHead();
    FixtureMiddle();
    FixtureLast();
    InsertAllAppend(None, a, b + c, Hamming);
    InsertAllAppend(Some(T4), b, c, Hamming);
  }

  /** The fixture's tree has six nodes, as the test expects of `size()`. */
  lemma HammingFixtureSize()
    ensures Count(InsertAll(None, Words, Hamming).0) == 6
  {
    HammingFixtureTree();
    InsertAllCount(None, Words, Hamming);
  }
}
