/** The path-diff distance between two versions of a system: how many
    execution paths were added plus how many were removed. A path is a
    sequence of steps; paths are compared by their steps, duplicates in a
    path list count once and the order of the list does not matter. */
module PathDiff {

  /** One traversal through the system's behaviour. */
  type Path<S> = seq<S>

  /** The distinct paths of a path list. */
  function PathSet<S(==)>(paths: seq<Path<S>>): set<Path<S>>
  {
    set p | p in paths
  }

  /** Paths added by `newPaths` plus paths removed from `originalPaths`. */
  function Distance<S(==)>(originalPaths: seq<Path<S>>, newPaths: seq<Path<S>>): nat
  {
    var original := PathSet(originalPaths);
    var updated := PathSet(newPaths);
    |updated - original| + |original - updated|
  }

  /** Reference definition on the lists themselves: the number of distinct
      paths of `xs` that do not occur in `ys`, counting each path at its last
      occurrence in `xs`. */
  function CountDistinctNotIn<S(==)>(xs: seq<Path<S>>, ys: seq<Path<S>>): nat
  {
    if |xs| == 0 then 0
    else
      var init := xs[..|xs| - 1];
      var last := xs[|xs| - 1];
      CountDistinctNotIn(init, ys) + (if last in ys || last in init then 0 else 1)
  }

  lemma {:induction false} CountDistinctNotInIsSetDifference<S>(xs: seq<Path<S>>, ys: seq<Path<S>>)
    ensures CountDistinctNotIn(xs, ys) == |PathSet(xs) - PathSet(ys)|
    decreases |xs|
  {
    if |xs| > 0 {
      var init := xs[..|xs| - 1];
      var last := xs[|xs| - 1];
      assert xs == init + [last];
      CountDistinctNotInIsSetDifference(init, ys);
      assert PathSet(xs) == PathSet(init) + {last};
      if last in ys || last in init {
        assert PathSet(xs) - PathSet(ys) == PathSet(init) - PathSet(ys);
      } else {
        assert PathSet(xs) - PathSet(ys) == (PathSet(init) - PathSet(ys)) + {last};
        assert last !in PathSet(init) - PathSet(ys);
      }
    }
  }

  /** The distance counts the distinct paths present in `newPaths` only plus
      the distinct paths present in `originalPaths` only. */
  lemma DistanceCountsAddedAndRemoved<S>(originalPaths: seq<Path<S>>, newPaths: seq<Path<S>>)
    ensures Distance(originalPaths, newPaths)
            == CountDistinctNotIn(newPaths, originalPaths) + CountDistinctNotIn(originalPaths, newPaths)
  {
    CountDistinctNotInIsSetDifference(newPaths, originalPaths);
    CountDistinctNotInIsSetDifference(originalPaths, newPaths);
  }

  /** The distance is the size of the symmetric difference: every path in the
      union of both versions that is not in their intersection. */
  lemma DistanceIsSymmetricDifference<S>(originalPaths: seq<Path<S>>, newPaths: seq<Path<S>>)
    ensures Distance(originalPaths, newPaths)
            == |PathSet(originalPaths) + PathSet(newPaths)| - |PathSet(originalPaths) * PathSet(newPaths)|
  {
  }

  lemma DistanceSymmetric<S>(a: seq<Path<S>>, b: seq<Path<S>>)
    ensures Distance(a, b) == Distance(b, a)
  {
  }

  lemma DistanceToSelfIsZero<S>(a: seq<Path<S>>)
    ensures Distance(a, a) == 0
  {
  }

  /** The distance is zero exactly when both versions have the same paths. */
  lemma DistanceZeroIffSamePaths<S>(a: seq<Path<S>>, b: seq<Path<S>>)
    ensures Distance(a, b) == 0 <==> PathSet(a) == PathSet(b)
  {
  }

  /** Reordering either path list leaves the distance unchanged. */
  lemma DistanceIgnoresOrder<S>(a: seq<Path<S>>, a': seq<Path<S>>, b: seq<Path<S>>)
    requires multiset(a) == multiset(a')
    ensures Distance(a, b) == Distance(a', b)
    ensures Distance(b, a) == Distance(b, a')
  {
    forall p ensures p in a <==> p in a' {
      assert p in a <==> p in multiset(a);
      assert p in a' <==> p in multiset(a');
    }
    assert PathSet(a) == PathSet(a');
  }

  /** Repeating a path that is already listed leaves the distance unchanged. */
  lemma DuplicatePathsCollapse<S>(a: seq<Path<S>>, p: Path<S>, b: seq<Path<S>>)
    requires p in a
    ensures Distance(a + [p], b) == Distance(a, b)
    ensures Distance(b, a + [p]) == Distance(b, a)
  {
    assert PathSet(a + [p]) == PathSet(a);
  }

  /** A path that neither version had, added to the new version, costs one. */
  lemma AddingFreshPathCostsOne<S>(a: seq<Path<S>>, b: seq<Path<S>>, p: Path<S>)
    requires p !in a && p !in b
    ensures Distance(a, b + [p]) == Distance(a, b) + 1
  {
    var A := PathSet(a);
    var B := PathSet(b);
    assert PathSet(b + [p]) == B + {p};
    assert (B + {p}) - A == (B - A) + {p};
    assert A - (B + {p}) == A - B;
  }

  lemma SubsetCardinality<T>(x: set<T>, y: set<T>)
    requires x <= y
    ensures |x| <= |y|
  {
    assert y == x + (y - x);
  }

  /** Going from `a` to `c` directly never differs by more than going through `b`. */
  lemma DistanceTriangle<S>(a: seq<Path<S>>, b: seq<Path<S>>, c: seq<Path<S>>)
    ensures Distance(a, c) <= Distance(a, b) + Distance(b, c)
  {
    var A, B, C := PathSet(a), PathSet(b), PathSet(c);
    SubsetCardinality(C - A, (C - B) + (B - A));
    SubsetCardinality(A - C, (A - B) + (B - C));
  }

  /** Worked example: {[a,b,c], [a,d]} against {[a,b,c], [a,e]} differ by one
      removed and one added path. */
  lemma ExampleDistanceIsTwo()
    ensures Distance([["a", "b", "c"], ["a", "d"]], [["a", "b", "c"], ["a", "e"]]) == 2
  {
    var o: seq<Path<string>> := [["a", "b", "c"], ["a", "d"]];
    var n: seq<Path<string>> := [["a", "b", "c"], ["a", "e"]];
    assert ["a", "d"] != ["a", "e"] by { assert ["a", "d"][1] != ["a", "e"][1]; }
    assert ["a", "d"] != ["a", "b", "c"];
    assert ["a", "e"] != ["a", "b", "c"];
    assert PathSet(n) - PathSet(o) == {["a", "e"]};
    assert PathSet(o) - PathSet(n) == {["a", "d"]};
  }
}
