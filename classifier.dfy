/** The pairwise relationship classifier: two columns are projected side by
    side and the numbers of distinct (x, y) rows, distinct x values and
    distinct y values decide whether one column functionally determines the
    other. Columns are plain sequences here; the table-level entry points
    live in the Tables module. */
module Classifier {
  import opened Counting

  datatype Relationship = Independent | Identifies | Injective

  /** The two-column projection, one (x, y) row per table row. */
  function Zip<T>(xs: seq<T>, ys: seq<T>): seq<(T, T)>
    requires |xs| == |ys|
  {
    seq(|xs|, i requires 0 <= i < |xs| => (xs[i], ys[i]))
  }

  /** xs functionally determines ys: rows that agree on x agree on y. */
  predicate Determines<T(==)>(xs: seq<T>, ys: seq<T>)
    requires |xs| == |ys|
  {
    forall i, j :: 0 <= i < |xs| && 0 <= j < |xs| && xs[i] == xs[j] ==> ys[i] == ys[j]
  }

  /** Two different rows carry the same (x, y) pair. */
  predicate PairRepeats<T(==)>(xs: seq<T>, ys: seq<T>)
    requires |xs| == |ys|
  {
    exists i, j :: 0 <= i < j < |xs| && xs[i] == xs[j] && ys[i] == ys[j]
  }

  /** The classification by counts: P distinct pairs, Ux distinct x values,
      Uy distinct y values. */
  function Classify<T(==)>(xs: seq<T>, ys: seq<T>): (r: Relationship)
    requires |xs| == |ys|
  {
    var pairs := DistinctCount(Zip(xs, ys));
    if |xs| == pairs then Independent
    else if pairs == DistinctCount(xs) then Identifies
    else if pairs == DistinctCount(ys) then Injective
    else Independent
  }

  lemma PairRepeatsIffNotDistinct<T>(xs: seq<T>, ys: seq<T>)
    requires |xs| == |ys|
    ensures PairRepeats(xs, ys) <==> !AllDistinct(Zip(xs, ys))
  {
    var z := Zip(xs, ys);
    if !AllDistinct(z) {
      var i, j :| 0 <= i < j < |z| && z[i] == z[j];
      assert xs[i] == xs[j] && ys[i] == ys[j];
    }
    if PairRepeats(xs, ys) {
      var i, j :| 0 <= i < j < |xs| && xs[i] == xs[j] && ys[i] == ys[j];
      assert z[i] == z[j];
    }
  }

  lemma DeterminesIffInjective<T>(xs: seq<T>, ys: seq<T>)
    requires |xs| == |ys|
    ensures Determines(xs, ys) <==> InjectiveOn((p: (T, T)) => p.0, Zip(xs, ys))
  {
    var z := Zip(xs, ys);
    var fst := (p: (T, T)) => p.0;
    if Determines(xs, ys) {
      forall p, q | p in z && q in z && fst(p) == fst(q) ensures p == q {
        var i :| 0 <= i < |z| && z[i] == p;
        var j :| 0 <= j < |z| && z[j] == q;
        assert xs[i] == xs[j];
      }
    }
    if InjectiveOn(fst, z) {
      forall i, j | 0 <= i < |xs| && 0 <= j < |xs| && xs[i] == xs[j] ensures ys[i] == ys[j] {
        assert z[i] in z && z[j] in z && fst(z[i]) == fst(z[j]);
      }
    }
  }

  /** The x-side of the count facts: Ux <= P <= n, P == n exactly when no
      pair repeats, and P == Ux exactly when x determines y. */
  lemma PairCountVersusX<T>(xs: seq<T>, ys: seq<T>)
    requires |xs| == |ys|
    ensures DistinctCount(xs) <= DistinctCount(Zip(xs, ys)) <= |xs|
    ensures DistinctCount(Zip(xs, ys)) == |xs| <==> !PairRepeats(xs, ys)
    ensures DistinctCount(Zip(xs, ys)) == DistinctCount(xs) <==> Determines(xs, ys)
  {
    var z := Zip(xs, ys);
    var fst := (p: (T, T)) => p.0;
    assert MapSeq(fst, z) == xs;
    DistinctCountImage(fst, z);
    DeterminesIffInjective(xs, ys);
    DistinctCountBound(z);
    PairRepeatsIffNotDistinct(xs, ys);
  }

  /** Swapping the columns keeps the number of distinct pairs. */
  lemma PairCountSymmetric<T>(xs: seq<T>, ys: seq<T>)
    requires |xs| == |ys|
    ensures DistinctCount(Zip(xs, ys)) == DistinctCount(Zip(ys, xs))
  {
    var z := Zip(xs, ys);
    var swap := (p: (T, T)) => (p.1, p.0);
    assert MapSeq(swap, z) == Zip(ys, xs);
    DistinctCountImage(swap, z);
  }

  lemma PairRepeatsSymmetric<T>(xs: seq<T>, ys: seq<T>)
    requires |xs| == |ys|
    ensures PairRepeats(xs, ys) <==> PairRepeats(ys, xs)
  {
    if PairRepeats(xs, ys) {
      var i, j :| 0 <= i < j < |xs| && xs[i] == xs[j] && ys[i] == ys[j];
      assert 0 <= i < j < |ys| && ys[i] == ys[j] && xs[i] == xs[j];
    }
    if PairRepeats(ys, xs) {
      var i, j :| 0 <= i < j < |ys| && ys[i] == ys[j] && xs[i] == xs[j];
      assert 0 <= i < j < |xs| && xs[i] == xs[j] && ys[i] == ys[j];
    }
  }

  /** What each answer of the classifier means about the data:
      "Independent" when every (x, y) row is distinct or neither column
      determines the other; "Identifies" when some pair repeats and x
      determines y; "Injective" when some pair repeats and y determines x
      but not the other way round. */
  lemma ClassifyMeaning<T>(xs: seq<T>, ys: seq<T>)
    requires |xs| == |ys|
    ensures Classify(xs, ys) == Independent <==>
              !PairRepeats(xs, ys) || (!Determines(xs, ys) && !Determines(ys, xs))
    ensures Classify(xs, ys) == Identifies <==> PairRepeats(xs, ys) && Determines(xs, ys)
    ensures Classify(xs, ys) == Injective <==>
              PairRepeats(xs, ys) && !Determines(xs, ys) && Determines(ys, xs)
  {
    PairCountVersusX(xs, ys);
    PairCountVersusX(ys, xs);
    PairCountSymmetric(xs, ys);
    PairRepeatsSymmetric(xs, ys);
  }

  /** When every projected row is a distinct pair, the answer is
      "Independent". */
  lemma DistinctRowsAreIndependent<T>(xs: seq<T>, ys: seq<T>)
    requires |xs| == |ys|
    requires AllDistinct(Zip(xs, ys))
    ensures Classify(xs, ys) == Independent
  {
    DistinctCountBound(Zip(xs, ys));
  }

  /** "Independent" does not depend on the order of the two columns. */
  lemma IndependentSymmetric<T>(xs: seq<T>, ys: seq<T>)
    requires |xs| == |ys|
    ensures Classify(xs, ys) == Independent <==> Classify(ys, xs) == Independent
  {
    ClassifyMeaning(xs, ys);
    ClassifyMeaning(ys, xs);
    PairRepeatsSymmetric(xs, ys);
  }

  /** "Injective" from (x, y) is "Identifies" from (y, x), and "Identifies"
      from (y, x) is "Injective" from (x, y) unless x also determines y. */
  lemma InjectiveMirrorsIdentifies<T>(xs: seq<T>, ys: seq<T>)
    requires |xs| == |ys|
    ensures Classify(xs, ys) == Injective ==> Classify(ys, xs) == Identifies
    ensures Classify(ys, xs) == Identifies && Classify(xs, ys) != Identifies ==>
              Classify(xs, ys) == Injective
  {
    ClassifyMeaning(xs, ys);
    ClassifyMeaning(ys, xs);
    PairRepeatsSymmetric(xs, ys);
  }

  /** "Identifies" is transitive: x determines y and y determines z, each with
      a repeated pair, give x determines z with a repeated pair. */
  lemma IdentifiesTransitive<T>(xs: seq<T>, ys: seq<T>, zs: seq<T>)
    requires |xs| == |ys| == |zs|
    requires Classify(xs, ys) == Identifies && Classify(ys, zs) == Identifies
    ensures Classify(xs, zs) == Identifies
  {
    ClassifyMeaning(xs, ys);
    ClassifyMeaning(ys, zs);
    ClassifyMeaning(xs, zs);
    var i, j :| 0 <= i < j < |xs| && xs[i] == xs[j] && ys[i] == ys[j];
    assert zs[i] == zs[j];
  }
}
