/**
 How ties between labels are broken. The rule documented for the label sweep is that the smallest of the
 tied labels is taken; the sweep takes the one met first while walking the neighbours in id order.
 */
module LabelTies {
  import opened Collections
  import opened EntityGraph
  import opened LabelPropagation
  import opened Ordering

  /** The labels that an update of `v` counts: those of its neighbours, in id order. */
  function Met(adj: Adjacency, labels: Labels, v: string): seq<string>
    requires GraphOk(adj, labels) && v in adj
  {
    LabelsOf(labels, SortSet(adj[v]))
  }

  /** No label is met more often. */
  ghost predicate Tied(s: seq<string>, x: string) {
    x in s && forall y :: Count(s, y) <= Count(s, x)
  }

  lemma FirstMostCommon(s: seq<string>, k: nat)
    requires k < |s| && Tied(s, s[k]) && forall j :: 0 <= j < k ==> !Tied(s, s[j])
    ensures MostCommon(s) == s[k]
  {
    forall j | 0 <= j < k ensures Count(s, s[j]) < Count(s, s[k]) {
      if Count(s, s[j]) == Count(s, s[k]) {
        assert Tied(s, s[j]);
      }
    }
    var r := MostCommonFrom(s, 0, s[0]);
    if r != s[0] {
      var i :| 0 <= i < |s| && s[i] == r && Count(s, s[0]) < Count(s, r)
               && forall j :: 0 <= j < i ==> Count(s, s[j]) < Count(s, r);
      assert i == k;
    }
  }

  lemma FirstTied(s: seq<string>, x: string) returns (k: nat)
    requires Tied(s, x)
    ensures k < |s| && Tied(s, s[k]) && forall j :: 0 <= j < k ==> !Tied(s, s[j])
  {
    var i :| 0 <= i < |s| && s[i] == x;
    k := 0;
    while !Tied(s, s[k])
      invariant k <= i && forall j :: 0 <= j < k ==> !Tied(s, s[j])
      decreases i - k
    {
      k := k + 1;
    }
  }

  /** An update takes the first of the tied labels among those of the neighbours. */
  lemma TieGoesToFirst(adj: Adjacency, labels: Labels, v: string, k: nat)
    requires GraphOk(adj, labels) && v in adj
    requires var s := Met(adj, labels, v); k < |s| && Tied(s, s[k]) && forall j :: 0 <= j < k ==> !Tied(s, s[j])
    ensures Update(adj, labels, v)[v] == Met(adj, labels, v)[k]
  {
    FirstMostCommon(Met(adj, labels, v), k);
    hide MostCommon, Tied;
  }

  /** No tied label other than `x` is met before `x`. */
  ghost predicate MetBeforeOthers(s: seq<string>, x: string) {
    forall i :: 0 <= i < |s| && Tied(s, s[i]) && s[i] != x ==> x in s[..i]
  }

  lemma FirstIsBefore(s: seq<string>, k: nat)
    requires k < |s| && forall j :: 0 <= j < k ==> !Tied(s, s[j])
    ensures MetBeforeOthers(s, s[k])
  {
    hide Tied;
    forall i | 0 <= i < |s| && Tied(s, s[i]) && s[i] != s[k] ensures s[k] in s[..i] {
      assert s[..i][k] == s[k];
    }
  }

  lemma BeforeIsFirst(s: seq<string>, x: string, k: nat)
    requires k < |s| && Tied(s, s[k]) && (forall j :: 0 <= j < k ==> !Tied(s, s[j])) && Tied(s, x)
    requires MetBeforeOthers(s, x)
    ensures s[k] == x
  {
    hide Tied;
    assert forall j :: 0 <= j < k ==> s[..k][j] == s[j];
  }

  /**
   An update takes the smallest of the tied labels, as documented, exactly when every other tied label is
   met only after it.
   */
  lemma SmallestChosenExactly(adj: Adjacency, labels: Labels, v: string, x: string)
    requires GraphOk(adj, labels) && v in adj
    requires var s := Met(adj, labels, v); Tied(s, x) && forall y :: Tied(s, y) ==> StrLe(x, y)
    ensures Update(adj, labels, v)[v] == x <==> MetBeforeOthers(Met(adj, labels, v), x)
  {
    hide *;
    var s := Met(adj, labels, v);
    var k := FirstTied(s, x);
    TieGoesToFirst(adj, labels, v, k);
    if s[k] == x {
      FirstIsBefore(s, k);
    } else if MetBeforeOthers(s, x) {
      BeforeIsFirst(s, x, k);
    }
  }

  // ----- the neighbours are walked in id order -----

  lemma {:induction false} SortSetSorted(s: set<string>)
    ensures Sorted(SortSet(s), StrLe)
    decreases s
  {
    if s != {} {
      SortSetSorted(s - {Least(s)});
    }
  }

  /** A strictly sorted list is what its set sorts to. */
  lemma SortSetIs(s: set<string>, r: seq<string>)
    requires Sorted(r, StrLe) && Distinct(r) && forall x :: x in r <==> x in s
    ensures SortSet(s) == r
  {
    SortSetSorted(s);
    DistinctSameMultiset(SortSet(s), r);
    forall x, y | x in SortSet(s) && y in SortSet(s) && StrLe(x, y) && StrLe(y, x) ensures x == y {
      StrLeAntisymmetric(x, y);
    }
    SortedUnique(SortSet(s), r, StrLe);
  }

  lemma SortPair(x: string, y: string)
    requires StrLe(x, y) && x != y
    ensures SortSet({x, y}) == [x, y]
  {
    SortSetIs({x, y}, [x, y]);
  }

  lemma SortSingle(x: string)
    ensures SortSet({x}) == [x]
  {
    SortSetIs({x}, [x]);
  }

  // ----- a sweep that breaks a tie the other way -----

  const EXAMPLE_RELATIONS: seq<Relation> :=
    [Relation("a", "c"), Relation("a", "x"), Relation("aa", "b"), Relation("b", "x")]

  const EXAMPLE: Adjacency := map["a" := {"c", "x"}, "aa" := {"b"}, "b" := {"aa", "x"}, "c" := {"a"}, "x" := {"a", "b"}]

  /** The nodes that the sweep visits before x. */
  const TO_X: seq<string> := ["a", "aa", "b", "c"]

  lemma ExampleOrders()
    ensures StrLe("a", "aa") && StrLe("aa", "b") && StrLe("b", "c") && StrLe("c", "x")
    ensures StrLe("a", "b") && StrLe("a", "c") && StrLe("a", "x")
    ensures StrLe("aa", "c") && StrLe("aa", "x") && StrLe("b", "x")
  {
    assert "aa"[1..] == "a" && "a"[1..] == "";
  }

  lemma ExampleRelated(a: string, b: string)
    ensures Related(EXAMPLE_RELATIONS, a, b)
       <==> || (a == "a" && b == "c") || (a == "c" && b == "a") || (a == "a" && b == "x") || (a == "x" && b == "a")
            || (a == "aa" && b == "b") || (a == "b" && b == "aa") || (a == "b" && b == "x") || (a == "x" && b == "b")
  {
    var rs := EXAMPLE_RELATIONS;
    assert rs[0] in rs && rs[1] in rs && rs[2] in rs && rs[3] in rs;
  }

  lemma ExampleGraph()
    ensures Symmetric(EXAMPLE)
    ensures forall a, b :: a in EXAMPLE && b in EXAMPLE ==> (b in EXAMPLE[a] <==> Related(EXAMPLE_RELATIONS, a, b))
  {
    forall a, b | a in EXAMPLE && b in EXAMPLE ensures b in EXAMPLE[a] <==> Related(EXAMPLE_RELATIONS, a, b) {
      ExampleRelated(a, b);
    }
  }

  lemma ExampleIs()
    ensures EXAMPLE.Keys == {"a", "aa", "b", "c", "x"}
    ensures EXAMPLE["a"] == {"c", "x"} && EXAMPLE["aa"] == {"b"} && EXAMPLE["b"] == {"aa", "x"}
    ensures EXAMPLE["c"] == {"a"} && EXAMPLE["x"] == {"a", "b"}
    ensures "c" != "x" && "aa" != "x" && "a" != "b"
  {
  }

  lemma ExampleKeysSorted()
    ensures SortSet(EXAMPLE.Keys) == TO_X + ["x"]
  {
    ExampleOrders();
    ExampleIs();
    hide StrLe, SortSet, EXAMPLE;
    SortSetIs(EXAMPLE.Keys, TO_X + ["x"]);
  }

  lemma ExampleNeighbours()
    ensures SortSet(EXAMPLE.Keys) == TO_X + ["x"]
    ensures SortSet(EXAMPLE["a"]) == ["c", "x"] && SortSet(EXAMPLE["aa"]) == ["b"]
    ensures SortSet(EXAMPLE["b"]) == ["aa", "x"] && SortSet(EXAMPLE["c"]) == ["a"]
    ensures SortSet(EXAMPLE["x"]) == ["a", "b"]
  {
    ExampleOrders();
    hide SortSet, StrLe;
    ExampleIs();
    hide *;
    SortPair("c", "x");
    SortPair("aa", "x");
    SortPair("a", "b");
    SortSingle("a");
    SortSingle("b");
    ExampleKeysSorted();
  }

  /** Of two labels met once each, the first is taken. */
  lemma FirstOfTwo(x: string, y: string)
    ensures MostCommon([x, y]) == x && MostCommon([x]) == x && (x != y ==> Tied([x, y], x) && Tied([x, y], y))
  {
    var s := [x, y];
    assert s[0] == x && s[1] == y;
    assert forall z :: Count(s, z) == (if z == x then 1 else 0) + (if z == y then 1 else 0);
  }

  lemma UpdateFromOne(labels: Labels, v: string, p: string)
    requires labels.Keys == EXAMPLE.Keys && v in EXAMPLE && SortSet(EXAMPLE[v]) == [p]
    ensures GraphOk(EXAMPLE, labels) && p in labels && Update(EXAMPLE, labels, v) == labels[v := labels[p]]
  {
    ExampleGraph();
    assert p in SortSet(EXAMPLE[v]) && p in EXAMPLE[v];
    hide Symmetric, SortSet;
    assert LabelsOf(labels, [p]) == [labels[p]];
    FirstOfTwo(labels[p], labels[p]);
    hide MostCommon;
  }

  lemma UpdateFromTwo(labels: Labels, v: string, p: string, q: string)
    requires labels.Keys == EXAMPLE.Keys && v in EXAMPLE && SortSet(EXAMPLE[v]) == [p, q]
    ensures GraphOk(EXAMPLE, labels) && p in labels && q in labels
    ensures Met(EXAMPLE, labels, v) == [labels[p], labels[q]]
    ensures Update(EXAMPLE, labels, v) == labels[v := labels[p]]
  {
    ExampleGraph();
    assert p == SortSet(EXAMPLE[v])[0] && q == SortSet(EXAMPLE[v])[1];
    assert p in SortSet(EXAMPLE[v]) && q in SortSet(EXAMPLE[v]);
    hide Symmetric, SortSet;
    assert LabelsOf(labels, [p, q]) == [labels[p], labels[q]];
    FirstOfTwo(labels[p], labels[q]);
    hide MostCommon;
  }

  lemma SweepCons(labels: Labels, v: string, rest: seq<string>)
    requires GraphOk(EXAMPLE, labels) && v in EXAMPLE && forall u :: u in rest ==> u in EXAMPLE
    ensures GraphOk(EXAMPLE, Update(EXAMPLE, labels, v))
    ensures Sweep(EXAMPLE, [v] + rest, labels) == Sweep(EXAMPLE, rest, Update(EXAMPLE, labels, v))
  {
    assert ([v] + rest)[1..] == rest;
    hide Update;
  }

  /** The labels after the first update, and when the first sweep comes to x. */
  const AFTER_A: Labels := map["a" := "c", "aa" := "aa", "b" := "b", "c" := "c", "x" := "x"]

  const BEFORE_X: Labels := map["a" := "c", "aa" := "b", "b" := "b", "c" := "c", "x" := "x"]

  lemma ExampleLabels()
    ensures Initial(EXAMPLE).Keys == EXAMPLE.Keys && AFTER_A.Keys == EXAMPLE.Keys && BEFORE_X.Keys == EXAMPLE.Keys
    ensures EXAMPLE.Keys == {"a", "aa", "b", "c", "x"}
    ensures Initial(EXAMPLE)["a" := Initial(EXAMPLE)["c"]] == AFTER_A
    ensures AFTER_A["aa" := AFTER_A["b"]] == BEFORE_X
    ensures BEFORE_X["b" := BEFORE_X["aa"]] == BEFORE_X && BEFORE_X["c" := BEFORE_X["a"]] == BEFORE_X
    ensures BEFORE_X["a"] == "c" && BEFORE_X["b"] == "b" && "b" != "c"
  {
  }

  lemma Listed(s: set<string>, u: string, rest: seq<string>)
    requires u in s && forall v :: v in rest ==> v in s
    ensures forall v :: v in [u] + rest ==> v in s
  {
  }

  lemma SweepToX(rest: seq<string>)
    requires forall u :: u in rest ==> u in EXAMPLE
    ensures GraphOk(EXAMPLE, Initial(EXAMPLE)) && GraphOk(EXAMPLE, BEFORE_X)
    ensures forall u :: u in TO_X + rest ==> u in EXAMPLE
    ensures Sweep(EXAMPLE, TO_X + rest, Initial(EXAMPLE)) == Sweep(EXAMPLE, rest, BEFORE_X)
  {
    hide *;
    ExampleNeighbours();
    ExampleLabels();
    var start := Initial(EXAMPLE);
    UpdateFromTwo(start, "a", "c", "x");
    UpdateFromOne(AFTER_A, "aa", "b");
    UpdateFromTwo(BEFORE_X, "b", "aa", "x");
    UpdateFromOne(BEFORE_X, "c", "a");
    var fromC := ["c"] + rest;
    var fromB := ["b"] + fromC;
    var fromAa := ["aa"] + fromB;
    var fromA := ["a"] + fromAa;
    Listed(EXAMPLE.Keys, "c", rest);
    Listed(EXAMPLE.Keys, "b", fromC);
    Listed(EXAMPLE.Keys, "aa", fromB);
    Listed(EXAMPLE.Keys, "a", fromAa);
    SweepCons(BEFORE_X, "c", rest);
    SweepCons(BEFORE_X, "b", fromC);
    SweepCons(AFTER_A, "aa", fromB);
    SweepCons(start, "a", fromAa);
    ToXIs(rest);
  }

  lemma ToXIs(rest: seq<string>)
    ensures TO_X + rest == ["a"] + (["aa"] + (["b"] + (["c"] + rest)))
  {
  }

  /** With the labels c and b tied among its neighbours, x takes c. */
  lemma TieAtX()
    ensures GraphOk(EXAMPLE, BEFORE_X) && "x" in EXAMPLE && TakesGreater(EXAMPLE, BEFORE_X, "x", "c", "b")
    ensures "x" in Update(EXAMPLE, BEFORE_X, "x") && Update(EXAMPLE, BEFORE_X, "x")["x"] == "c"
  {
    hide Symmetric, SortSet, Update, Met, StrLe, Tied;
    ExampleOrders();
    ExampleNeighbours();
    ExampleLabels();
    UpdateFromTwo(BEFORE_X, "x", "a", "b");
    FirstOfTwo("c", "b");
  }

  lemma SweepNothing(labels: Labels)
    requires GraphOk(EXAMPLE, labels)
    ensures Sweep(EXAMPLE, [], labels) == labels
  {
  }

  lemma OneRound(labels: Labels)
    requires GraphOk(EXAMPLE, labels)
    ensures forall v :: v in SortSet(EXAMPLE.Keys) ==> v in EXAMPLE
    ensures Rounds(EXAMPLE, labels, 1) == Sweep(EXAMPLE, SortSet(EXAMPLE.Keys), labels)
  {
    hide Sweep, SortSet;
  }

  /** What the first sweep does from x on. */
  lemma SweepFromX()
    ensures GraphOk(EXAMPLE, Initial(EXAMPLE)) && GraphOk(EXAMPLE, BEFORE_X) && "x" in EXAMPLE
    ensures forall u :: u in TO_X ==> u in EXAMPLE
    ensures Sweep(EXAMPLE, TO_X, Initial(EXAMPLE)) == BEFORE_X
    ensures Rounds(EXAMPLE, Initial(EXAMPLE), 1) == Update(EXAMPLE, BEFORE_X, "x")
  {
    hide *;
    ExampleNeighbours();
    TieAtX();
    var x, none: seq<string> := ["x"], [];
    assert forall u :: u in x ==> u == "x";
    SweepToX(x);
    SweepToX(none);
    assert TO_X + none == TO_X && x + none == x;
    SweepNothing(BEFORE_X);
    SweepCons(BEFORE_X, "x", none);
    SweepNothing(Update(EXAMPLE, BEFORE_X, "x"));
    OneRound(Initial(EXAMPLE));
  }

  /** Among the tied labels is a smaller one than the one that the update takes. */
  ghost predicate TakesGreater(adj: Adjacency, labels: Labels, v: string, taken: string, smaller: string) {
    && GraphOk(adj, labels) && v in adj
    && Tied(Met(adj, labels, v), taken) && Tied(Met(adj, labels, v), smaller)
    && StrLe(smaller, taken) && smaller != taken && Update(adj, labels, v)[v] == taken
  }

  /**
   On the graph of four relations a-c, a-x, aa-b, b-x the first sweep comes to x with the labels c and b
   tied among its neighbours, and takes c although b is smaller.
   */
  lemma TieNotSmallest()
    ensures forall a, b :: a in EXAMPLE && b in EXAMPLE ==> (b in EXAMPLE[a] <==> Related(EXAMPLE_RELATIONS, a, b))
    ensures GraphOk(EXAMPLE, Initial(EXAMPLE)) && (forall u :: u in TO_X ==> u in EXAMPLE)
    ensures SortSet(EXAMPLE.Keys) == TO_X + ["x"] && Sweep(EXAMPLE, TO_X, Initial(EXAMPLE)) == BEFORE_X
    ensures TakesGreater(EXAMPLE, BEFORE_X, "x", "c", "b")
    ensures "x" in Rounds(EXAMPLE, Initial(EXAMPLE), 1) && Rounds(EXAMPLE, Initial(EXAMPLE), 1)["x"] == "c"
  {
    hide *;
    ExampleGraph();
    ExampleNeighbours();
    TieAtX();
    SweepFromX();
  }
}
