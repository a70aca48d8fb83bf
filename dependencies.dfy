/** `detect_column_relationships`: sorts the columns of a table into
    Constant, Unique and Independent, lists the one-directional functional
    dependencies among the remaining columns as (determinant, dependent)
    pairs, and gathers the mutually determining columns into groups. Each
    phase of the source is one method here, and the whole analysis is
    DetectColumnRelationships. */
module Dependencies {
  import opened Counting
  import opened Classifier
  import opened Tables

  type Pair = (string, string)

  datatype Relationships = Relationships(
    independent: seq<string>,
    constant: seq<string>,
    unique: seq<string>,
    identifies: seq<Pair>,
    bijective: seq<seq<string>>)

  function Reverse(p: Pair): Pair {
    (p.1, p.0)
  }

  /** All values of the column differ. */
  ghost predicate IsUnique<A>(t: Contents<A>, c: string)
    requires t.Valid() && c in t.names
  {
    AllDistinct(t.cols[c])
  }

  /** The column holds a single value and some value repeats. */
  ghost predicate IsConstant<A>(t: Contents<A>, c: string)
    requires t.Valid() && c in t.names
  {
    DistinctCount(t.cols[c]) == 1 && !AllDistinct(t.cols[c])
  }

  /** A column that is neither Unique nor Constant: the ones compared pairwise. */
  ghost predicate IsCandidate<A>(t: Contents<A>, c: string)
    requires t.Valid()
  {
    c in t.names && !IsUnique(t, c) && !IsConstant(t, c)
  }

  /** The candidate columns in column order: the list the pairwise phase
      works through (line 167). */
  ghost function Candidates<A>(t: Contents<A>): seq<string>
    requires t.Valid()
  {
    Without(t.names, set c | c in t.names && !IsCandidate(t, c))
  }

  /** x identifies y, both candidates. */
  ghost predicate SoundPair<A>(t: Contents<A>, p: Pair)
    requires t.Valid()
  {
    && p.0 in t.names && p.1 in t.names
    && IsCandidate(t, p.0) && IsCandidate(t, p.1) && p.0 != p.1
    && t.CharacterizeColumnRelationship(p.0, p.1) == Identifies
  }

  /** x identifies y but y does not identify x. */
  ghost predicate OneWay<A>(t: Contents<A>, p: Pair)
    requires t.Valid()
  {
    SoundPair(t, p) && t.CharacterizeColumnRelationship(p.1, p.0) != Identifies
  }

  /** Some other candidate identifies c. */
  ghost predicate IsDetermined<A>(t: Contents<A>, c: string)
    requires t.Valid()
  {
    exists d :: SoundPair(t, (d, c))
  }

  /** Every member is a candidate and any two members identify each other. */
  ghost predicate Clique<A>(t: Contents<A>, g: seq<string>)
    requires t.Valid()
  {
    && (forall a :: a in g ==> IsCandidate(t, a))
    && (forall a, b :: a in g && b in g && a != b ==> t.CharacterizeColumnRelationship(a, b) == Identifies)
  }

  /** The set of dependents named by a list of pairs. */
  function Targets(ps: seq<Pair>): set<string> {
    set p | p in ps :: p.1
  }

  /** The first k columns are sorted into the three lists; the rest are
      still listed as independent. */
  ghost predicate SortedUpTo<A>(t: Contents<A>, k: nat, independent: seq<string>, constant: seq<string>,
                                unique: seq<string>)
    requires t.Valid() && k <= |t.names|
  {
    && (forall c :: c in unique ==> c in t.names[..k] && IsUnique(t, c))
    && (forall c :: c in t.names[..k] && IsUnique(t, c) ==> c in unique)
    && (forall c :: c in constant ==> c in t.names[..k] && IsConstant(t, c))
    && (forall c :: c in t.names[..k] && IsConstant(t, c) ==> c in constant)
    && (forall c :: c in independent ==> c in t.names[k..] || (c in t.names[..k] && IsCandidate(t, c)))
    && (forall c :: c in t.names[k..] ==> c in independent)
    && (forall c :: c in t.names[..k] && IsCandidate(t, c) ==> c in independent)
    && AllDistinct(independent) && AllDistinct(constant) && AllDistinct(unique)
  }

  /** Sorting the k-th column moves it from the independent list to the
      list of its kind, if it has one. */
  lemma SortStep<A>(t: Contents<A>, k: nat, independent: seq<string>, constant: seq<string>, unique: seq<string>)
    requires t.Valid() && k < |t.names| && SortedUpTo(t, k, independent, constant, unique)
    ensures var c := t.names[k];
            if IsUnique(t, c) then SortedUpTo(t, k + 1, RemoveFirst(independent, c), constant, unique + [c])
            else if IsConstant(t, c) then SortedUpTo(t, k + 1, RemoveFirst(independent, c), constant + [c], unique)
            else SortedUpTo(t, k + 1, independent, constant, unique)
  {
    var c := t.names[k];
    NamesAround(t.names, k);
    if IsUnique(t, c) {
      DistinctSnoc(unique, c);
      SortUnique(t, k, independent, constant, unique);
    } else if IsConstant(t, c) {
      DistinctSnoc(constant, c);
      SortConstant(t, k, independent, constant, unique);
    } else {
      SortCandidate(t, k, independent, constant, unique);
    }
  }

  /** The k-th name of a list without repeats is neither before nor after
      itself. */
  lemma NamesAround(names: seq<string>, k: nat)
    requires k < |names| && AllDistinct(names)
    ensures names[..k + 1] == names[..k] + [names[k]]
    ensures names[k..] == [names[k]] + names[k + 1..]
    ensures names[k] !in names[..k] && names[k] !in names[k + 1..]
  {
    var c := names[k];
    assert names[..k + 1] == names[..k] + [c];
    assert names[k..] == [c] + names[k + 1..];
    forall m | 0 <= m < |names| && m != k ensures names[m] != c {
      if m < k { assert names[m] != names[k]; } else { assert names[k] != names[m]; }
    }
  }

  lemma SortUnique<A>(t: Contents<A>, k: nat, independent: seq<string>, constant: seq<string>, unique: seq<string>)
    requires t.Valid() && k < |t.names| && SortedUpTo(t, k, independent, constant, unique)
    requires var c := t.names[k];
             && t.names[..k + 1] == t.names[..k] + [c] && t.names[k..] == [c] + t.names[k + 1..]
             && c !in t.names[..k] && c !in t.names[k + 1..]
             && IsUnique(t, c) && AllDistinct(unique + [c])
    ensures SortedUpTo(t, k + 1, RemoveFirst(independent, t.names[k]), constant, unique + [t.names[k]])
  {
  }

  lemma SortConstant<A>(t: Contents<A>, k: nat, independent: seq<string>, constant: seq<string>, unique: seq<string>)
    requires t.Valid() && k < |t.names| && SortedUpTo(t, k, independent, constant, unique)
    requires var c := t.names[k];
             && t.names[..k + 1] == t.names[..k] + [c] && t.names[k..] == [c] + t.names[k + 1..]
             && c !in t.names[..k] && c !in t.names[k + 1..]
             && !IsUnique(t, c) && IsConstant(t, c) && AllDistinct(constant + [c])
    ensures SortedUpTo(t, k + 1, RemoveFirst(independent, t.names[k]), constant + [t.names[k]], unique)
  {
  }

  lemma SortCandidate<A>(t: Contents<A>, k: nat, independent: seq<string>, constant: seq<string>, unique: seq<string>)
    requires t.Valid() && k < |t.names| && SortedUpTo(t, k, independent, constant, unique)
    requires var c := t.names[k];
             && t.names[..k + 1] == t.names[..k] + [c] && t.names[k..] == [c] + t.names[k + 1..]
             && c !in t.names[..k] && c !in t.names[k + 1..]
             && !IsUnique(t, c) && !IsConstant(t, c)
    ensures SortedUpTo(t, k + 1, independent, constant, unique)
  {
  }

  lemma DistinctSnoc(s: seq<string>, x: string)
    requires AllDistinct(s) && x !in s
    ensures AllDistinct(s + [x])
  {
    forall i, j | 0 <= i < j < |s| + 1 ensures (s + [x])[i] != (s + [x])[j] {
      if j == |s| { assert (s + [x])[i] == s[i]; }
    }
  }

  /** Lines 157-164: a column whose values all differ becomes Unique, one
      with a single distinct value becomes Constant, and the others stay
      Independent, in column order. */
  method SortOutConstantsAndUniques<A(==)>(t: Contents<A>)
    returns (independent: seq<string>, constant: seq<string>, unique: seq<string>)
    requires t.Valid()
    ensures forall c :: c in unique ==> c in t.names && IsUnique(t, c)
    ensures forall c :: c in t.names && IsUnique(t, c) ==> c in unique
    ensures forall c :: c in constant ==> c in t.names && IsConstant(t, c)
    ensures forall c :: c in t.names && IsConstant(t, c) ==> c in constant
    ensures forall c :: c in independent ==> IsCandidate(t, c)
    ensures forall c :: IsCandidate(t, c) ==> c in independent
    ensures AllDistinct(independent) && AllDistinct(constant) && AllDistinct(unique)
    ensures forall c :: c in unique ==> c !in constant && c !in independent
    ensures forall c :: c in constant ==> c !in independent
    ensures InOrderOf(independent, t.names) && InOrderOf(constant, t.names) && InOrderOf(unique, t.names)
    ensures independent == Candidates(t)
  {
    independent, constant, unique := t.names, [], [];
    ghost var sorted: set<string> := {};
    WithoutNothing(t.names, sorted);
    var k := 0;
    while k < |t.names|
      invariant 0 <= k <= |t.names|
      invariant SortProgress(t, k, independent, constant, unique, sorted)
    {
      var c := t.names[k];
      SortProgressStep(t, k, independent, constant, unique, sorted);
      var uniqueCount := DistinctCount(t.cols[c]);
      DistinctCountBound(t.cols[c]);
      if |t.cols[c]| == uniqueCount {
        unique := unique + [c];
        independent, sorted := RemoveFirst(independent, c), sorted + {c};
      } else if uniqueCount == 1 {
        constant := constant + [c];
        independent, sorted := RemoveFirst(independent, c), sorted + {c};
      }
      k := k + 1;
    }
    SortDone(t, independent, constant, unique, sorted);
  }

  /** The facts SortOutConstantsAndUniques ensures, once every column is sorted. */
  lemma SortDone<A>(t: Contents<A>, independent: seq<string>, constant: seq<string>, unique: seq<string>,
                    sorted: set<string>)
    requires t.Valid() && SortProgress(t, |t.names|, independent, constant, unique, sorted)
    ensures forall c :: c in unique ==> c in t.names && IsUnique(t, c)
    ensures forall c :: c in t.names && IsUnique(t, c) ==> c in unique
    ensures forall c :: c in constant ==> c in t.names && IsConstant(t, c)
    ensures forall c :: c in t.names && IsConstant(t, c) ==> c in constant
    ensures forall c :: c in independent ==> IsCandidate(t, c)
    ensures forall c :: IsCandidate(t, c) ==> c in independent
    ensures AllDistinct(independent) && AllDistinct(constant) && AllDistinct(unique)
    ensures InOrderOf(independent, t.names) && InOrderOf(constant, t.names) && InOrderOf(unique, t.names)
    ensures independent == Candidates(t)
  {
    assert t.names[..|t.names|] == t.names;
    assert t.names[|t.names|..] == [];
    WithoutInOrder(t.names, sorted);
    WithoutSameOn(t.names, sorted, set c | c in t.names && !IsCandidate(t, c));
  }

  /** SortedUpTo, with the Independent list being the names without the
      columns sorted out so far, and Constant and Unique in column order. */
  ghost predicate SortProgress<A>(t: Contents<A>, k: nat, independent: seq<string>, constant: seq<string>,
                                  unique: seq<string>, sorted: set<string>)
    requires t.Valid() && k <= |t.names|
  {
    && SortedUpTo(t, k, independent, constant, unique)
    && independent == Without(t.names, sorted)
    && (forall c :: c in sorted <==> c in unique || c in constant)
    && InOrderOf(constant, t.names) && InOrderOf(unique, t.names)
  }

  lemma SortProgressStep<A>(t: Contents<A>, k: nat, independent: seq<string>, constant: seq<string>,
                            unique: seq<string>, sorted: set<string>)
    requires t.Valid() && k < |t.names| && SortProgress(t, k, independent, constant, unique, sorted)
    ensures var c := t.names[k];
            if IsUnique(t, c) then
              SortProgress(t, k + 1, RemoveFirst(independent, c), constant, unique + [c], sorted + {c})
            else if IsConstant(t, c) then
              SortProgress(t, k + 1, RemoveFirst(independent, c), constant + [c], unique, sorted + {c})
            else SortProgress(t, k + 1, independent, constant, unique, sorted)
  {
    var c := t.names[k];
    SortStep(t, k, independent, constant, unique);
    SortedBefore(t.names, k, unique);
    SortedBefore(t.names, k, constant);
    SortedOut(t.names, sorted, c);
  }

  /** Columns already sorted out come before the k-th column, so appending
      the k-th keeps a list of them in column order. */
  lemma SortedBefore(names: seq<string>, k: nat, sorted: seq<string>)
    requires AllDistinct(names) && k < |names|
    requires InOrderOf(sorted, names) && forall c :: c in sorted ==> c in names[..k]
    ensures InOrderOf(sorted + [names[k]], names)
  {
    IndexOfAt(names, k);
    forall j | 0 <= j < |sorted| ensures ComesBefore(names, sorted[j], names[k]) {
      assert sorted[j] in names[..k];
      var i :| 0 <= i < k && names[i] == sorted[j];
      IndexOfAt(names, i);
    }
    InOrderSnoc(sorted, names, names[k]);
  }

  /** Removing one more column from the filtered names filters it out too. */
  lemma SortedOut(names: seq<string>, sorted: set<string>, c: string)
    requires AllDistinct(names)
    ensures RemoveFirst(Without(names, sorted), c) == Without(names, sorted + {c})
  {
    RemoveFirstIsWithout(Without(names, sorted), c);
    WithoutWithout(names, sorted, {c});
  }

  /** What the pairwise phase keeps true: the recorded pairs are distinct
      pairs of remaining columns where the first identifies the second, and
      Independent is the remaining columns not yet recorded as a dependent. */
  ghost predicate PairwiseInvariant<A>(t: Contents<A>, remaining: seq<string>,
                                       identifies: seq<Pair>, independent: seq<string>)
    requires t.Valid()
  {
    && (forall c :: c in remaining ==> c in t.names)
    && (forall p :: p in identifies ==> p.0 in remaining && p.1 in remaining && p.0 != p.1)
    && (forall p :: p in identifies ==> t.CharacterizeColumnRelationship(p.0, p.1) == Identifies)
    && AllDistinct(identifies)
    && (forall c :: c in independent ==> c in remaining && c !in Targets(identifies))
    && (forall c :: c in remaining && c !in Targets(identifies) ==> c in independent)
    && AllDistinct(independent)
    && independent == Without(remaining, Targets(identifies))
  }

  /** The step of the pairwise loop that compares p.0 with p.1: the row of
      p.0 and the column of p.1 among the remaining columns. */
  function Step(remaining: seq<string>, p: Pair): (int, int)
    requires p.0 in remaining && p.1 in remaining
  {
    (IndexOf(remaining, p.0), IndexOf(remaining, p.1))
  }

  /** Step s comes before step u in row-major order. */
  predicate Precedes(s: (int, int), u: (int, int)) {
    s.0 < u.0 || (s.0 == u.0 && s.1 < u.1)
  }

  /** p is a pair of remaining columns that identify each other. */
  ghost predicate MutualIn<A>(t: Contents<A>, remaining: seq<string>, p: Pair)
    requires t.Valid()
  {
    && p.0 in remaining && p.1 in remaining && p.0 in t.names && p.1 in t.names
    && t.CharacterizeColumnRelationship(p.0, p.1) == Identifies
    && t.CharacterizeColumnRelationship(p.1, p.0) == Identifies
  }

  /** The mutual pairs of ps are listed in the row-major order of their steps. */
  ghost predicate MutualRowMajor<A>(t: Contents<A>, remaining: seq<string>, ps: seq<Pair>)
    requires t.Valid()
  {
    forall k1, k2 :: 0 <= k1 < k2 < |ps| && MutualIn(t, remaining, ps[k1]) && MutualIn(t, remaining, ps[k2]) ==>
      Precedes(Step(remaining, ps[k1]), Step(remaining, ps[k2]))
  }

  /** The step of the pairwise loop that records p, a pair of remaining
      columns where p.0 identifies p.1: its own step when p.1 identifies p.0
      as well; otherwise the first step that compares the two columns, which
      records p as "Identifies" when p.0 comes first and, reversed, as
      "Injective" when p.1 comes first. A pair of other columns is found
      after the last step. */
  ghost function Found<A>(t: Contents<A>, remaining: seq<string>, p: Pair): (int, int)
    requires t.Valid()
  {
    if p.0 in remaining && p.1 in remaining && p.0 in t.names && p.1 in t.names then
      var s := Step(remaining, p);
      if t.CharacterizeColumnRelationship(p.1, p.0) == Identifies || s.0 < s.1 then s else (s.1, s.0)
    else
      (|remaining|, 0)
  }

  /** ps is what the pairwise loop has recorded before step `now`: every
      pair was found before `now`, the pairs are listed in the order they
      were found, and every identification between remaining columns found
      before `now` is listed. */
  ghost predicate RecordedBefore<A>(t: Contents<A>, remaining: seq<string>, ps: seq<Pair>, now: (int, int))
    requires t.Valid() && forall c :: c in remaining ==> c in t.names
  {
    PairsIn(remaining, ps) && FoundBy(t, remaining, ps, now) && FoundInOrder(t, remaining, ps) && AllListed(t, remaining, ps, now)
  }

  /** Every pair of ps is made of remaining columns. */
  predicate PairsIn(remaining: seq<string>, ps: seq<Pair>) {
    forall p :: p in ps ==> p.0 in remaining && p.1 in remaining
  }

  /** Every pair of ps was found before step `now`. */
  ghost predicate FoundBy<A>(t: Contents<A>, remaining: seq<string>, ps: seq<Pair>, now: (int, int))
    requires t.Valid()
  {
    forall k :: 0 <= k < |ps| ==> Precedes(Found(t, remaining, ps[k]), now)
  }

  /** The pairs of ps are listed in the order they were found. */
  ghost predicate FoundInOrder<A>(t: Contents<A>, remaining: seq<string>, ps: seq<Pair>)
    requires t.Valid()
  {
    forall k1, k2 :: 0 <= k1 < k2 < |ps| ==> Precedes(Found(t, remaining, ps[k1]), Found(t, remaining, ps[k2]))
  }

  /** Every identification between remaining columns found before step
      `now` is in ps. */
  ghost predicate AllListed<A>(t: Contents<A>, remaining: seq<string>, ps: seq<Pair>, now: (int, int))
    requires t.Valid() && forall c :: c in remaining ==> c in t.names
  {
    forall q :: Identifying(t, remaining, q) && Precedes(Found(t, remaining, q), now) ==> q in ps
  }

  /** q is a pair of distinct remaining columns where q.0 identifies q.1. */
  ghost predicate Identifying<A>(t: Contents<A>, remaining: seq<string>, q: Pair)
    requires t.Valid() && forall c :: c in remaining ==> c in t.names
  {
    q.0 in remaining && q.1 in remaining && q.0 != q.1 && t.CharacterizeColumnRelationship(q.0, q.1) == Identifies
  }

  /** The identifications found at the step comparing x with y: (x, y) when
      x identifies y, and (y, x) when the step answers "Injective". */
  lemma FoundAt<A>(t: Contents<A>, remaining: seq<string>, x: string, y: string, q: Pair)
    requires t.Valid() && forall c :: c in remaining ==> c in t.names
    requires x in remaining && y in remaining && Identifying(t, remaining, q)
    requires Found(t, remaining, q) == Step(remaining, (x, y))
    ensures || (q == (x, y) && t.CharacterizeColumnRelationship(x, y) == Identifies)
            || (q == (y, x) && t.CharacterizeColumnRelationship(x, y) == Injective)
  {
    if q != (x, y) {
      assert q == (y, x);
      InjectiveMirrorsIdentifies(t.cols[x], t.cols[y]);
    }
  }

  /** The identification a step records was found at that step or before. */
  lemma FoundNoLater<A>(t: Contents<A>, remaining: seq<string>, x: string, y: string)
    requires t.Valid() && forall c :: c in remaining ==> c in t.names
    requires x in remaining && y in remaining
    ensures t.CharacterizeColumnRelationship(x, y) == Identifies ==>
              var f := Found(t, remaining, (x, y));
              f == Step(remaining, (x, y)) || Precedes(f, Step(remaining, (x, y)))
    ensures t.CharacterizeColumnRelationship(x, y) == Injective ==>
              var f := Found(t, remaining, (y, x));
              f == Step(remaining, (x, y)) || Precedes(f, Step(remaining, (x, y)))
  {
    InjectiveMirrorsIdentifies(t.cols[x], t.cols[y]);
  }

  /** Recording p at step `now`, where it was found, keeps the recorded
      list as RecordedBefore says, up to the next step in the row. */
  lemma RecordedAppend<A>(t: Contents<A>, remaining: seq<string>, ps: seq<Pair>, x: string, y: string, p: Pair)
    requires t.Valid() && forall c :: c in remaining ==> c in t.names
    requires x in remaining && y in remaining
    requires RecordedBefore(t, remaining, ps, Step(remaining, (x, y)))
    requires p.0 in remaining && p.1 in remaining && Found(t, remaining, p) == Step(remaining, (x, y))
    requires forall q :: Identifying(t, remaining, q) && Found(t, remaining, q) == Step(remaining, (x, y)) ==> q == p
    ensures RecordedBefore(t, remaining, ps + [p], (IndexOf(remaining, x), IndexOf(remaining, y) + 1))
  {
    var now := Step(remaining, (x, y));
    var next := (now.0, now.1 + 1);
    assert next == (IndexOf(remaining, x), IndexOf(remaining, y) + 1);
    AppendPairsIn(remaining, ps, p);
    AppendFoundBy(t, remaining, ps, p, now);
    AppendInOrder(t, remaining, ps, p);
    AppendListed(t, remaining, ps, p, now);
  }

  lemma AppendPairsIn(remaining: seq<string>, ps: seq<Pair>, p: Pair)
    requires PairsIn(remaining, ps) && p.0 in remaining && p.1 in remaining
    ensures PairsIn(remaining, ps + [p])
  {
    assert forall q :: q in ps + [p] ==> q in ps || q == p;
  }

  lemma AppendFoundBy<A>(t: Contents<A>, remaining: seq<string>, ps: seq<Pair>, p: Pair, now: (int, int))
    requires t.Valid() && FoundBy(t, remaining, ps, now) && Found(t, remaining, p) == now
    ensures FoundBy(t, remaining, ps + [p], (now.0, now.1 + 1))
  {
    var qs := ps + [p];
    forall k | 0 <= k < |qs| ensures Precedes(Found(t, remaining, qs[k]), (now.0, now.1 + 1)) {
      if k < |ps| { assert qs[k] == ps[k]; }
    }
  }

  lemma AppendInOrder<A>(t: Contents<A>, remaining: seq<string>, ps: seq<Pair>, p: Pair)
    requires t.Valid() && FoundInOrder(t, remaining, ps) && FoundBy(t, remaining, ps, Found(t, remaining, p))
    ensures FoundInOrder(t, remaining, ps + [p])
  {
    var qs := ps + [p];
    forall k1, k2 | 0 <= k1 < k2 < |qs| ensures Precedes(Found(t, remaining, qs[k1]), Found(t, remaining, qs[k2])) {
      assert qs[k1] == ps[k1];
      if k2 < |ps| { assert qs[k2] == ps[k2]; }
    }
  }

  lemma AppendListed<A>(t: Contents<A>, remaining: seq<string>, ps: seq<Pair>, p: Pair, now: (int, int))
    requires t.Valid() && forall c :: c in remaining ==> c in t.names
    requires AllListed(t, remaining, ps, now)
    requires forall q :: Identifying(t, remaining, q) && Found(t, remaining, q) == now ==> q == p
    ensures AllListed(t, remaining, ps + [p], (now.0, now.1 + 1))
  {
    forall q | Identifying(t, remaining, q) && Precedes(Found(t, remaining, q), (now.0, now.1 + 1)) ensures q in ps + [p] {
      PrecedesNext(Found(t, remaining, q), now);
    }
  }

  /** A step that records nothing keeps the recorded list as RecordedBefore
      says, up to the next step in the row. */
  lemma RecordedSkip<A>(t: Contents<A>, remaining: seq<string>, ps: seq<Pair>, x: string, y: string)
    requires t.Valid() && forall c :: c in remaining ==> c in t.names
    requires x in remaining && y in remaining
    requires RecordedBefore(t, remaining, ps, Step(remaining, (x, y)))
    requires forall q :: Identifying(t, remaining, q) && Found(t, remaining, q) == Step(remaining, (x, y)) ==> q in ps
    ensures RecordedBefore(t, remaining, ps, (IndexOf(remaining, x), IndexOf(remaining, y) + 1))
  {
    var now := Step(remaining, (x, y));
    var next := (now.0, now.1 + 1);
    assert next == (IndexOf(remaining, x), IndexOf(remaining, y) + 1);
    forall q | Identifying(t, remaining, q) && Precedes(Found(t, remaining, q), next) ensures q in ps {
      PrecedesNext(Found(t, remaining, q), now);
    }
  }

  /** The Identifies list after step (x, y) of lines 172-186: "Identifies"
      appends (x, y) and "Injective" appends (y, x), each only when not yet
      listed; other answers, and x == y, leave it as it is. */
  function Recorded(ps: seq<Pair>, x: string, y: string, relationship: Relationship): seq<Pair> {
    if x == y then ps
    else
      match relationship
      case Identifies => if (x, y) in ps then ps else ps + [(x, y)]
      case Injective => if (y, x) in ps then ps else ps + [(y, x)]
      case Independent => ps
  }

  /** The list after the steps (x, remaining[j]), ..., to the end of x's row. */
  function RowFrom<A>(t: Contents<A>, remaining: seq<string>, ps: seq<Pair>, x: string, j: nat): seq<Pair>
    requires t.Valid() && x in t.names && forall c :: c in remaining ==> c in t.names
    requires j <= |remaining|
    decreases |remaining| - j
  {
    if j == |remaining| then ps else RowFrom(t, remaining, Recorded(ps, x, remaining[j], t.CharacterizeColumnRelationship(x, remaining[j])), x, j + 1)
  }

  lemma RowFromStep<A>(t: Contents<A>, remaining: seq<string>, ps: seq<Pair>, x: string, j: nat)
    requires t.Valid() && x in t.names && forall c :: c in remaining ==> c in t.names
    requires j < |remaining|
    ensures RowFrom(t, remaining, ps, x, j) == RowFrom(t, remaining, Recorded(ps, x, remaining[j], t.CharacterizeColumnRelationship(x, remaining[j])), x, j + 1)
  {
  }

  /** The list after the rows of remaining[i], ..., to the last row. */
  function PairsFrom<A>(t: Contents<A>, remaining: seq<string>, ps: seq<Pair>, i: nat): seq<Pair>
    requires t.Valid() && forall c :: c in remaining ==> c in t.names
    requires i <= |remaining|
    decreases |remaining| - i
  {
    if i == |remaining| then ps else PairsFrom(t, remaining, RowFrom(t, remaining, ps, remaining[i], 0), i + 1)
  }

  /** The Identifies list at the end of lines 167-186: the pairs in the
      order the row-major steps record them. */
  function PairwiseList<A>(t: Contents<A>, remaining: seq<string>): seq<Pair>
    requires t.Valid() && forall c :: c in remaining ==> c in t.names
  {
    PairsFrom(t, remaining, [], 0)
  }

  /** Lines 172-186, one (x, y) step of the pairwise phase: "Identifies"
      records (x, y), "Injective" records (y, x), unless already recorded,
      and the recorded dependent leaves Independent. */
  method RecordPair<A(==)>(t: Contents<A>, remaining: seq<string>, identifies: seq<Pair>,
                           independent: seq<string>, x: string, y: string)
    returns (identifies': seq<Pair>, independent': seq<string>)
    requires t.Valid() && PairwiseInvariant(t, remaining, identifies, independent)
    requires x in remaining && y in remaining && AllDistinct(remaining)
    requires RecordedBefore(t, remaining, identifies, Step(remaining, (x, y)))
    ensures PairwiseInvariant(t, remaining, identifies', independent')
    ensures forall p :: p in identifies ==> p in identifies'
    ensures x != y && t.CharacterizeColumnRelationship(x, y) == Identifies ==> (x, y) in identifies'
    ensures identifies' == Recorded(identifies, x, y, t.CharacterizeColumnRelationship(x, y))
    ensures RecordedBefore(t, remaining, identifies', (IndexOf(remaining, x), IndexOf(remaining, y) + 1))
  {
    identifies', independent' := identifies, independent;
    RecordedStep(t, remaining, identifies, x, y);
    if x != y {
      var relationship := t.CharacterizeColumnRelationship(x, y);
      if relationship == Identifies {
        if (x, y) !in identifies' {
          PairwiseAppend(t, remaining, identifies, independent, (x, y));
          identifies' := identifies' + [(x, y)];
          if y in independent' {
            independent' := RemoveFirst(independent', y);
          }
        }
      } else if relationship == Injective {
        InjectiveMirrorsIdentifies(t.cols[x], t.cols[y]);
        if (y, x) !in identifies' {
          PairwiseAppend(t, remaining, identifies, independent, (y, x));
          identifies' := identifies' + [(y, x)];
          if x in independent' {
            independent' := RemoveFirst(independent', x);
          }
        }
      }
    }
  }

  /** Recording a new identification p keeps the pairwise invariant once
      p.1 leaves Independent. */
  lemma PairwiseAppend<A>(t: Contents<A>, remaining: seq<string>, ps: seq<Pair>, independent: seq<string>, p: Pair)
    requires t.Valid() && PairwiseInvariant(t, remaining, ps, independent) && AllDistinct(remaining)
    requires p.0 in remaining && p.1 in remaining && p.0 != p.1 && p !in ps
    requires t.CharacterizeColumnRelationship(p.0, p.1) == Identifies
    ensures PairwiseInvariant(t, remaining, ps + [p], if p.1 in independent then RemoveFirst(independent, p.1) else independent)
  {
    AppendPair(ps, p);
    var targets := Targets(ps + [p]);
    var independent' := if p.1 in independent then RemoveFirst(independent, p.1) else independent;
    if p.1 in independent {
      SortedOut(remaining, Targets(ps), p.1);
    } else {
      assert p.1 in Targets(ps);
      assert targets == Targets(ps);
    }
    assert independent' == Without(remaining, targets);
    forall q | q in ps + [p] ensures q.0 in remaining && q.1 in remaining && q.0 != q.1 {
      if q != p { assert q in ps; }
    }
    forall q | q in ps + [p] ensures t.CharacterizeColumnRelationship(q.0, q.1) == Identifies {
      if q != p { assert q in ps; }
    }
    assert forall c :: c in independent' ==> c in remaining && c !in targets;
    assert forall c :: c in remaining && c !in targets ==> c in independent';
    assert AllDistinct(independent');
    assert PairwiseInvariant(t, remaining, ps + [p], independent');
  }

  /** What step (x, y) of the pairwise loop records keeps the recorded list
      as RecordedBefore says, up to the next step in the row: (x, y) when x
      identifies y, (y, x) when the answer is "Injective", nothing else. */
  lemma RecordedStep<A>(t: Contents<A>, remaining: seq<string>, ps: seq<Pair>, x: string, y: string)
    requires t.Valid() && forall c :: c in remaining ==> c in t.names
    requires x in remaining && y in remaining
    requires RecordedBefore(t, remaining, ps, Step(remaining, (x, y)))
    ensures var next := (IndexOf(remaining, x), IndexOf(remaining, y) + 1);
            var r := t.CharacterizeColumnRelationship(x, y);
            && (x != y && r == Identifies && (x, y) !in ps ==> RecordedBefore(t, remaining, ps + [(x, y)], next))
            && (x != y && r == Injective && (y, x) !in ps ==> RecordedBefore(t, remaining, ps + [(y, x)], next))
            && (x == y || (r == Identifies && (x, y) in ps) || (r == Injective && (y, x) in ps) || r == Independent ==>
                  RecordedBefore(t, remaining, ps, next))
  {
    FoundNoLater(t, remaining, x, y);
    forall q | Identifying(t, remaining, q) && Found(t, remaining, q) == Step(remaining, (x, y))
      ensures || (q == (x, y) && t.CharacterizeColumnRelationship(x, y) == Identifies)
              || (q == (y, x) && t.CharacterizeColumnRelationship(x, y) == Injective)
    {
      FoundAt(t, remaining, x, y, q);
    }
    var r := t.CharacterizeColumnRelationship(x, y);
    if x != y && r == Identifies && (x, y) !in ps {
      RecordedAppend(t, remaining, ps, x, y, (x, y));
    } else if x != y && r == Injective && (y, x) !in ps {
      InjectiveMirrorsIdentifies(t.cols[x], t.cols[y]);
      RecordedAppend(t, remaining, ps, x, y, (y, x));
    } else {
      RecordedSkip(t, remaining, ps, x, y);
    }
  }

  /** Every remaining column that x identifies is recorded as (x, _). */
  ghost predicate RowCovered<A>(t: Contents<A>, remaining: seq<string>, identifies: seq<Pair>, x: string)
    requires t.Valid() && x in t.names
    requires forall c :: c in remaining ==> c in t.names
  {
    forall y :: y in remaining && x != y && t.CharacterizeColumnRelationship(x, y) == Identifies ==>
      (x, y) in identifies
  }

  lemma RowCoveredGrows<A>(t: Contents<A>, remaining: seq<string>, ps: seq<Pair>, qs: seq<Pair>, x: string)
    requires t.Valid() && x in t.names
    requires forall c :: c in remaining ==> c in t.names
    requires RowCovered(t, remaining, ps, x)
    requires forall p :: p in ps ==> p in qs
    ensures RowCovered(t, remaining, qs, x)
  {
  }

  /** Comparing x with the j-th remaining column extends the covered part
      of x's row by one column. */
  lemma RowCoveredStep<A>(t: Contents<A>, remaining: seq<string>, ps: seq<Pair>, qs: seq<Pair>, x: string, j: nat)
    requires t.Valid() && x in t.names && j < |remaining|
    requires forall c :: c in remaining ==> c in t.names
    requires RowCovered(t, remaining[..j], ps, x)
    requires forall p :: p in ps ==> p in qs
    requires x != remaining[j] && t.CharacterizeColumnRelationship(x, remaining[j]) == Identifies ==> (x, remaining[j]) in qs
    ensures RowCovered(t, remaining[..j + 1], qs, x)
  {
    assert remaining[..j + 1] == remaining[..j] + [remaining[j]];
  }

  /** Every column of xs has its row covered. */
  ghost predicate RowsCovered<A>(t: Contents<A>, remaining: seq<string>, identifies: seq<Pair>, xs: seq<string>)
    requires t.Valid()
    requires forall c :: c in remaining ==> c in t.names
    requires forall c :: c in xs ==> c in t.names
  {
    forall x :: x in xs ==> RowCovered(t, remaining, identifies, x)
  }

  /** Covering the i-th row keeps the earlier rows covered. */
  lemma RowsCoveredStep<A>(t: Contents<A>, remaining: seq<string>, ps: seq<Pair>, qs: seq<Pair>, i: nat)
    requires t.Valid() && i < |remaining|
    requires forall c :: c in remaining ==> c in t.names
    requires RowsCovered(t, remaining, ps, remaining[..i])
    requires forall p :: p in ps ==> p in qs
    requires RowCovered(t, remaining, qs, remaining[i])
    ensures RowsCovered(t, remaining, qs, remaining[..i + 1])
  {
    assert remaining[..i + 1] == remaining[..i] + [remaining[i]];
    forall x | x in remaining[..i] ensures RowCovered(t, remaining, qs, x) {
      RowCoveredGrows(t, remaining, ps, qs, x);
    }
  }

  /** Lines 170-186, the inner loop for one x: every y of the remaining
      columns is compared with x. */
  method ClassifyRow<A(==)>(t: Contents<A>, remaining: seq<string>, identifies: seq<Pair>,
                            independent: seq<string>, x: string)
    returns (identifies': seq<Pair>, independent': seq<string>)
    requires t.Valid() && PairwiseInvariant(t, remaining, identifies, independent)
    requires x in remaining && AllDistinct(remaining)
    requires RecordedBefore(t, remaining, identifies, (IndexOf(remaining, x), 0))
    ensures PairwiseInvariant(t, remaining, identifies', independent')
    ensures forall p :: p in identifies ==> p in identifies'
    ensures RowCovered(t, remaining, identifies', x)
    ensures RecordedBefore(t, remaining, identifies', (IndexOf(remaining, x), |remaining|))
    ensures identifies' == RowFrom(t, remaining, identifies, x, 0)
  {
    identifies', independent' := identifies, independent;
    RowStart(t, remaining, identifies, independent, x);
    var j := 0;
    while j < |remaining|
      invariant 0 <= j <= |remaining|
      invariant RowProgress(t, remaining, identifies, identifies', independent', x, j)
    {
      identifies', independent' := RecordRowStep(t, remaining, identifies, identifies', independent', x, j);
      j := j + 1;
    }
    RowDone(t, remaining, identifies, identifies', independent', x);
  }

  lemma RowStart<A>(t: Contents<A>, remaining: seq<string>, ps: seq<Pair>, independent: seq<string>, x: string)
    requires t.Valid() && PairwiseInvariant(t, remaining, ps, independent) && x in remaining
    requires RecordedBefore(t, remaining, ps, (IndexOf(remaining, x), 0))
    ensures RowProgress(t, remaining, ps, ps, independent, x, 0)
  {
  }

  lemma RowDone<A>(t: Contents<A>, remaining: seq<string>, start: seq<Pair>, ps: seq<Pair>, independent: seq<string>,
                   x: string)
    requires t.Valid() && x in remaining && RowProgress(t, remaining, start, ps, independent, x, |remaining|)
    ensures PairwiseInvariant(t, remaining, ps, independent)
    ensures forall p :: p in start ==> p in ps
    ensures RowCovered(t, remaining, ps, x)
    ensures RecordedBefore(t, remaining, ps, (IndexOf(remaining, x), |remaining|))
    ensures ps == RowFrom(t, remaining, start, x, 0)
  {
    assert remaining[..|remaining|] == remaining;
  }

  /** One turn of the inner loop: step (x, remaining[j]). */
  method RecordRowStep<A(==)>(t: Contents<A>, remaining: seq<string>, start: seq<Pair>, identifies: seq<Pair>,
                              independent: seq<string>, x: string, j: nat)
    returns (identifies': seq<Pair>, independent': seq<string>)
    requires t.Valid() && x in remaining && j < |remaining| && AllDistinct(remaining)
    requires RowProgress(t, remaining, start, identifies, independent, x, j)
    ensures RowProgress(t, remaining, start, identifies', independent', x, j + 1)
  {
    IndexOfAt(remaining, j);
    identifies', independent' := RecordPair(t, remaining, identifies, independent, x, remaining[j]);
    RowProgressStep(t, remaining, start, identifies, independent, identifies', independent', x, j);
  }

  /** What the inner loop keeps true after the steps (x, remaining[..j]),
      starting from the list `start`. */
  ghost predicate RowProgress<A>(t: Contents<A>, remaining: seq<string>, start: seq<Pair>, ps: seq<Pair>,
                                 independent: seq<string>, x: string, j: nat)
    requires t.Valid() && x in remaining && j <= |remaining|
  {
    && PairwiseInvariant(t, remaining, ps, independent)
    && (forall p :: p in start ==> p in ps)
    && RowCovered(t, remaining[..j], ps, x)
    && RecordedBefore(t, remaining, ps, (IndexOf(remaining, x), j))
    && RowFrom(t, remaining, ps, x, j) == RowFrom(t, remaining, start, x, 0)
  }

  /** What RecordPair ensures for step (x, remaining[j]) carries RowProgress
      to the next step. */
  lemma RowProgressStep<A>(t: Contents<A>, remaining: seq<string>, start: seq<Pair>, ps: seq<Pair>,
                           independent: seq<string>, ps': seq<Pair>, independent': seq<string>, x: string, j: nat)
    requires t.Valid() && x in remaining && j < |remaining| && AllDistinct(remaining)
    requires RowProgress(t, remaining, start, ps, independent, x, j)
    requires PairwiseInvariant(t, remaining, ps', independent')
    requires forall p :: p in ps ==> p in ps'
    requires x != remaining[j] && t.CharacterizeColumnRelationship(x, remaining[j]) == Identifies ==> (x, remaining[j]) in ps'
    requires ps' == Recorded(ps, x, remaining[j], t.CharacterizeColumnRelationship(x, remaining[j]))
    requires RecordedBefore(t, remaining, ps', (IndexOf(remaining, x), IndexOf(remaining, remaining[j]) + 1))
    ensures RowProgress(t, remaining, start, ps', independent', x, j + 1)
  {
    IndexOfAt(remaining, j);
    RowFromStep(t, remaining, ps, x, j);
    RowCoveredStep(t, remaining, ps, ps', x, j);
  }

  /** Lines 167-186: every ordered pair of distinct remaining columns is
      classified. Afterwards the list holds exactly the pairs of remaining
      columns where the first identifies the second, each once, in the
      order of the steps that found them, and Independent keeps, in order,
      exactly the remaining columns that no other remaining column
      identifies. */
  method ClassifyRemainingPairs<A(==)>(t: Contents<A>, remaining: seq<string>)
    returns (identifies: seq<Pair>, independent: seq<string>)
    requires t.Valid()
    requires forall c :: c in remaining ==> c in t.names
    requires AllDistinct(remaining)
    ensures PairwiseInvariant(t, remaining, identifies, independent)
    ensures forall x :: x in remaining ==> RowCovered(t, remaining, identifies, x)
    ensures forall k1, k2 :: 0 <= k1 < k2 < |identifies| ==>
              Precedes(Found(t, remaining, identifies[k1]), Found(t, remaining, identifies[k2]))
    ensures MutualRowMajor(t, remaining, identifies)
    ensures InOrderOf(independent, remaining)
    ensures identifies == PairwiseList(t, remaining)
  {
    identifies, independent := [], remaining;
    assert Targets(identifies) == {};
    WithoutNothing(remaining, {});
    RecordedStart(t, remaining);
    var i := 0;
    while i < |remaining|
      invariant 0 <= i <= |remaining|
      invariant PairwiseInvariant(t, remaining, identifies, independent)
      invariant RowsCovered(t, remaining, identifies, remaining[..i])
      invariant RecordedBefore(t, remaining, identifies, (i, 0))
      invariant PairsFrom(t, remaining, identifies, i) == PairwiseList(t, remaining)
    {
      IndexOfAt(remaining, i);
      ghost var before := identifies;
      identifies, independent := ClassifyRow(t, remaining, identifies, independent, remaining[i]);
      RecordedNextRow(t, remaining, identifies, i);
      RowsCoveredStep(t, remaining, before, identifies, i);
      i := i + 1;
    }
    assert remaining[..i] == remaining;
    FoundMutualRowMajor(t, remaining, identifies);
    WithoutInOrder(remaining, Targets(identifies));
  }

  /** A step before the one after `now` is `now` or before it. */
  lemma PrecedesNext(f: (int, int), now: (int, int))
    ensures Precedes(f, (now.0, now.1 + 1)) ==> f == now || Precedes(f, now)
  {
  }

  /** Nothing is found before the first step. */
  lemma RecordedStart<A>(t: Contents<A>, remaining: seq<string>)
    requires t.Valid() && forall c :: c in remaining ==> c in t.names
    ensures RecordedBefore(t, remaining, [], (0, 0))
  {
  }

  /** The end of a row of the pairwise loop is the start of the next one. */
  lemma RecordedNextRow<A>(t: Contents<A>, remaining: seq<string>, ps: seq<Pair>, i: nat)
    requires t.Valid() && forall c :: c in remaining ==> c in t.names
    requires RecordedBefore(t, remaining, ps, (i, |remaining|))
    ensures RecordedBefore(t, remaining, ps, (i + 1, 0))
  {
  }

  /** A mutual pair is found at its own step, so the found order lists the
      mutual pairs in row-major order. */
  lemma FoundMutualRowMajor<A>(t: Contents<A>, remaining: seq<string>, ps: seq<Pair>)
    requires t.Valid() && forall c :: c in remaining ==> c in t.names
    requires forall p :: p in ps ==> p.0 in remaining && p.1 in remaining
    requires forall k1, k2 :: 0 <= k1 < k2 < |ps| ==> Precedes(Found(t, remaining, ps[k1]), Found(t, remaining, ps[k2]))
    ensures MutualRowMajor(t, remaining, ps)
  {
    forall k1, k2 | 0 <= k1 < k2 < |ps| && MutualIn(t, remaining, ps[k1]) && MutualIn(t, remaining, ps[k2])
      ensures Precedes(Step(remaining, ps[k1]), Step(remaining, ps[k2]))
    {
      assert ps[k1] in ps && ps[k2] in ps;
    }
  }

  lemma AppendPair(ps: seq<Pair>, p: Pair)
    requires AllDistinct(ps) && p !in ps
    ensures AllDistinct(ps + [p])
    ensures Targets(ps + [p]) == Targets(ps) + {p.1}
  {
    var qs := ps + [p];
    forall i, j | 0 <= i < j < |qs| ensures qs[i] != qs[j] {
      assert qs[i] == ps[i];
    }
    assert forall q :: q in qs <==> q in ps || q == p;
  }

  /** The pairs of ps whose reverse is also in ps: the mutual identifications. */
  function Mutual(ps: seq<Pair>): set<Pair> {
    set p | p in ps && Reverse(p) in ps
  }

  /** Lines 189-197: every pair whose reverse is also listed is taken out
      together with its reverse, and one of the two moves to Bijective. The
      remaining list is the original with the mutual pairs filtered out, in
      the original order. */
  method ExtractBijectivePairs(identifies: seq<Pair>) returns (rest: seq<Pair>, bijective: seq<Pair>)
    requires AllDistinct(identifies)
    requires forall p :: p in identifies ==> p.0 != p.1
    ensures rest == Without(identifies, Mutual(identifies))
    ensures forall b :: b in bijective ==> b in identifies && Reverse(b) in identifies
    ensures forall p :: p in identifies && Reverse(p) in identifies ==> p in bijective || Reverse(p) in bijective
    ensures forall b :: b in bijective ==> ComesBefore(identifies, b, Reverse(b))
    ensures forall p :: ComesBefore(identifies, p, Reverse(p)) ==> p in bijective
    ensures forall k1, k2 :: 0 <= k1 < k2 < |bijective| ==>
              IndexOf(identifies, bijective[k1]) < IndexOf(identifies, bijective[k2])
  {
    rest, bijective := identifies, [];
    ghost var removed: set<Pair> := {};
    WithoutNothing(identifies, removed);
    var i := 0;
    while i < |rest|
      invariant ExtractInvariant(identifies, removed, rest, bijective, i)
      invariant ExtractOrder(identifies, removed, rest, bijective, i)
      decreases |rest| - i
    {
      var p := rest[i];
      if Reverse(p) in rest {
        ExtractStepKeeps(identifies, removed, rest, bijective, i);
        ExtractOrderStep(identifies, removed, rest, bijective, i);
        rest := RemoveFirst(RemoveFirst(rest, p), Reverse(p));
        removed := removed + {p, Reverse(p)};
        bijective := bijective + [p];
      } else {
        ExtractSkip(identifies, removed, rest, bijective, i);
        i := i + 1;
      }
    }
    ExtractFinish(identifies, removed, rest, bijective);
    ExtractFirstMet(identifies, removed, rest, bijective);
  }

  /** The order facts of the extraction: every recorded pair comes before
      its reverse and before every unscanned pair of the list, and the
      recorded pairs keep the order of the original list. */
  ghost predicate ExtractOrder(identifies: seq<Pair>, removed: set<Pair>, rest: seq<Pair>,
                               bijective: seq<Pair>, i: int)
    requires ExtractInvariant(identifies, removed, rest, bijective, i)
  {
    && (forall b :: b in bijective ==> ComesBefore(identifies, b, Reverse(b)))
    && (forall b, k :: b in bijective && i <= k < |rest| ==> IndexOf(identifies, b) < IndexOf(identifies, rest[k]))
    && (forall k1, k2 :: 0 <= k1 < k2 < |bijective| ==>
          IndexOf(identifies, bijective[k1]) < IndexOf(identifies, bijective[k2]))
  }

  /** A pair that survives the removal of rest[i] and its reverse, at or
      after position i, stood after position i before the removal. */
  lemma AfterScanned(rest: seq<Pair>, r: seq<Pair>, i: nat, k: nat)
    requires AllDistinct(r) && i <= k < |r| && i < |rest| && i <= |r| && r[..i] == rest[..i]
    requires r[k] in rest && r[k] != rest[i]
    ensures IndexOf(rest, r[k]) > i
  {
    forall l | 0 <= l < i ensures rest[l] == r[l] {
      assert rest[..i][l] == rest[l] && r[..i][l] == r[l];
    }
    var idx := IndexOf(rest, r[k]);
    assert rest[idx] == r[k];
  }

  lemma ExtractOrderStep(identifies: seq<Pair>, removed: set<Pair>, rest: seq<Pair>,
                         bijective: seq<Pair>, i: int)
    requires ExtractInvariant(identifies, removed, rest, bijective, i)
    requires ExtractOrder(identifies, removed, rest, bijective, i)
    requires i < |rest| && Reverse(rest[i]) in rest
    ensures var p := rest[i];
            var r := RemoveFirst(RemoveFirst(rest, p), Reverse(p));
            && ExtractInvariant(identifies, removed + {p, Reverse(p)}, r, bijective + [p], i)
            && ExtractOrder(identifies, removed + {p, Reverse(p)}, r, bijective + [p], i)
  {
    var p := rest[i];
    ExtractStepKeeps(identifies, removed, rest, bijective, i);
    RecordedBeforeReverse(identifies, removed, rest, bijective, i);
    UnscannedAfterRecorded(identifies, removed, rest, bijective, i);
    var bijective' := bijective + [p];
    forall k1, k2 | 0 <= k1 < k2 < |bijective'|
      ensures IndexOf(identifies, bijective'[k1]) < IndexOf(identifies, bijective'[k2])
    {
      if k2 == |bijective| {
        assert bijective'[k1] == bijective[k1] && bijective[k1] in bijective;
      } else {
        assert bijective'[k1] == bijective[k1] && bijective'[k2] == bijective[k2];
      }
    }
  }

  /** The pair being recorded comes before its reverse: the reverse is not
      in the scanned prefix, so it is further on. */
  lemma RecordedBeforeReverse(identifies: seq<Pair>, removed: set<Pair>, rest: seq<Pair>,
                              bijective: seq<Pair>, i: int)
    requires ExtractInvariant(identifies, removed, rest, bijective, i)
    requires i < |rest| && Reverse(rest[i]) in rest
    ensures ComesBefore(identifies, rest[i], Reverse(rest[i]))
  {
    var p := rest[i];
    var q := Reverse(p);
    assert Reverse(q) == p && q != p;
    forall l | 0 <= l < i ensures rest[l] != q {
      assert Reverse(rest[l]) !in rest;
    }
    WithoutInOrder(identifies, removed);
  }

  /** After the removal, everything at or after position i came after the
      recorded pair, and so after every pair recorded before it. */
  lemma UnscannedAfterRecorded(identifies: seq<Pair>, removed: set<Pair>, rest: seq<Pair>,
                               bijective: seq<Pair>, i: int)
    requires ExtractInvariant(identifies, removed, rest, bijective, i)
    requires ExtractOrder(identifies, removed, rest, bijective, i)
    requires i < |rest| && Reverse(rest[i]) in rest
    ensures var p := rest[i];
            var r := RemoveFirst(RemoveFirst(rest, p), Reverse(p));
            forall k :: i <= k < |r| ==>
              && IndexOf(identifies, p) < IndexOf(identifies, r[k])
              && forall b :: b in bijective ==> IndexOf(identifies, b) < IndexOf(identifies, r[k])
  {
    var p := rest[i];
    var q := Reverse(p);
    var r := RemoveFirst(RemoveFirst(rest, p), q);
    RemoveBoth(rest, p, q);
    WithoutKeepsPrefix(rest, {p, q}, i);
    WithoutInOrder(identifies, removed);
    forall k | i <= k < |r|
      ensures IndexOf(identifies, p) < IndexOf(identifies, r[k])
      ensures forall b :: b in bijective ==> IndexOf(identifies, b) < IndexOf(identifies, r[k])
    {
      AfterScanned(rest, r, i, k);
      var k' := IndexOf(rest, r[k]);
      assert rest[k'] == r[k];
      assert IndexOf(identifies, rest[i]) < IndexOf(identifies, rest[k']);
    }
  }

  /** Once the scan is over, a pair that comes before its reverse in the
      list is the recorded one of the two. */
  lemma ExtractFirstMet(identifies: seq<Pair>, removed: set<Pair>, rest: seq<Pair>, bijective: seq<Pair>)
    requires ExtractInvariant(identifies, removed, rest, bijective, |rest|)
    requires ExtractOrder(identifies, removed, rest, bijective, |rest|)
    ensures forall p :: ComesBefore(identifies, p, Reverse(p)) ==> p in bijective
  {
    ExtractDone(identifies, removed, rest);
    forall p | ComesBefore(identifies, p, Reverse(p))
      ensures p in bijective
    {
      assert p in Mutual(identifies);
      assert Reverse(Reverse(p)) == p;
    }
  }

  /** A pair whose reverse is not listed is passed over. */
  lemma ExtractSkip(identifies: seq<Pair>, removed: set<Pair>, rest: seq<Pair>, bijective: seq<Pair>, i: int)
    requires ExtractInvariant(identifies, removed, rest, bijective, i)
    requires ExtractOrder(identifies, removed, rest, bijective, i)
    requires i < |rest| && Reverse(rest[i]) !in rest
    ensures ExtractInvariant(identifies, removed, rest, bijective, i + 1)
    ensures ExtractOrder(identifies, removed, rest, bijective, i + 1)
  {
  }

  /** Once the whole list is scanned, the removed pairs are the mutual ones
      and Bijective holds one of each. */
  lemma ExtractFinish(identifies: seq<Pair>, removed: set<Pair>, rest: seq<Pair>, bijective: seq<Pair>)
    requires ExtractInvariant(identifies, removed, rest, bijective, |rest|)
    ensures rest == Without(identifies, Mutual(identifies))
    ensures forall p :: p in identifies && Reverse(p) in identifies ==> p in bijective || Reverse(p) in bijective
  {
    ExtractDone(identifies, removed, rest);
    forall p | p in identifies && Reverse(p) in identifies ensures p in bijective || Reverse(p) in bijective {
      assert p in Mutual(identifies);
    }
  }

  /** What the bijective extraction keeps true: the list is the original
      minus the removed pairs, which come in reverse pairs; no pair before
      position i has its reverse in the list; Bijective holds one of each
      removed reverse pair. */
  ghost predicate ExtractInvariant(identifies: seq<Pair>, removed: set<Pair>, rest: seq<Pair>,
                                   bijective: seq<Pair>, i: int)
  {
    && AllDistinct(identifies)
    && (forall p :: p in identifies ==> p.0 != p.1)
    && 0 <= i <= |rest|
    && rest == Without(identifies, removed)
    && AllDistinct(rest)
    && (forall p :: p in removed ==> p in identifies && Reverse(p) in removed)
    && (forall k :: 0 <= k < i ==> Reverse(rest[k]) !in rest)
    && (forall b :: b in bijective ==> b in identifies && Reverse(b) in identifies)
    && (forall p :: p in removed ==> p in bijective || Reverse(p) in bijective)
  }

  lemma ExtractStepKeeps(identifies: seq<Pair>, removed: set<Pair>, rest: seq<Pair>,
                         bijective: seq<Pair>, i: int)
    requires ExtractInvariant(identifies, removed, rest, bijective, i)
    requires i < |rest| && Reverse(rest[i]) in rest
    ensures var p := rest[i];
            var r := RemoveFirst(RemoveFirst(rest, p), Reverse(p));
            && ExtractInvariant(identifies, removed + {p, Reverse(p)}, r, bijective + [p], i)
            && |r| < |rest|
  {
    var p := rest[i];
    var q := Reverse(p);
    var removed' := removed + {p, q};
    var bijective' := bijective + [p];
    assert p in identifies && q in identifies && p != q && Reverse(q) == p;
    var r1 := RemoveFirst(rest, p);
    var r := RemoveFirst(r1, q);
    assert |r| < |rest| by {
      assert q in r1;
    }
    assert r == Without(identifies, removed') && AllDistinct(r) && i <= |r| by {
      ExtractStep(identifies, removed, rest, i);
      RemoveBoth(rest, p, q);
    }
    assert forall k :: 0 <= k < i ==> Reverse(r[k]) !in r by {
      ExtractStep(identifies, removed, rest, i);
      RemoveBoth(rest, p, q);
    }
    ExtractBookkeeping(identifies, removed, bijective, p);
  }

  /** Removing a pair and its reverse while recording the pair keeps the
      removed set closed under reversal and covered by the recorded pairs. */
  lemma ExtractBookkeeping(identifies: seq<Pair>, removed: set<Pair>, bijective: seq<Pair>, p: Pair)
    requires forall x :: x in removed ==> x in identifies && Reverse(x) in removed
    requires forall b :: b in bijective ==> b in identifies && Reverse(b) in identifies
    requires forall x :: x in removed ==> x in bijective || Reverse(x) in bijective
    requires p in identifies && Reverse(p) in identifies
    ensures var removed', bijective' := removed + {p, Reverse(p)}, bijective + [p];
            && (forall x :: x in removed' ==> x in identifies && Reverse(x) in removed')
            && (forall b :: b in bijective' ==> b in identifies && Reverse(b) in identifies)
            && (forall x :: x in removed' ==> x in bijective' || Reverse(x) in bijective')
  {
    assert Reverse(Reverse(p)) == p;
  }

  /** Two removals from a duplicate-free list filter out both elements. */
  lemma RemoveBoth(s: seq<Pair>, p: Pair, q: Pair)
    requires AllDistinct(s)
    ensures RemoveFirst(RemoveFirst(s, p), q) == Without(s, {p, q})
  {
    RemoveFirstIsWithout(s, p);
    RemoveFirstIsWithout(RemoveFirst(s, p), q);
    WithoutWithout(s, {p}, {q});
    assert {p} + {q} == {p, q};
  }

  /** One removal step of the bijective extraction keeps the loop's facts:
      the list stays the original minus the removed set and the scanned
      prefix is untouched. */
  lemma ExtractStep(identifies: seq<Pair>, removed: set<Pair>, rest: seq<Pair>, i: nat)
    requires rest == Without(identifies, removed) && AllDistinct(rest)
    requires i < |rest| && Reverse(rest[i]) in rest
    requires forall k :: 0 <= k < i ==> Reverse(rest[k]) !in rest
    ensures Without(rest, {rest[i], Reverse(rest[i])}) == Without(identifies, removed + {rest[i], Reverse(rest[i])})
    ensures i <= |Without(rest, {rest[i], Reverse(rest[i])})|
    ensures forall k :: 0 <= k < i ==>
              Reverse(Without(rest, {rest[i], Reverse(rest[i])})[k]) !in Without(rest, {rest[i], Reverse(rest[i])})
  {
    WithoutWithout(identifies, removed, {rest[i], Reverse(rest[i])});
    ScannedPrefixKept(rest, i);
  }

  /** Filtering out the i-th pair and its reverse leaves the scanned prefix
      in place, still without reverses. */
  lemma ScannedPrefixKept(rest: seq<Pair>, i: nat)
    requires AllDistinct(rest)
    requires i < |rest| && Reverse(rest[i]) in rest
    requires forall k :: 0 <= k < i ==> Reverse(rest[k]) !in rest
    ensures var r := Without(rest, {rest[i], Reverse(rest[i])});
            && i <= |r|
            && forall k :: 0 <= k < i ==> Reverse(r[k]) !in r
  {
    var p := rest[i];
    var q := Reverse(p);
    var r := Without(rest, {p, q});
    forall k | 0 <= k < i ensures rest[k] != p && rest[k] != q {
      assert Reverse(q) == p;
    }
    WithoutKeepsPrefix(rest, {p, q}, i);
    forall k | 0 <= k < i ensures Reverse(r[k]) !in r {
      assert r[k] == rest[..i][k] == rest[k];
    }
  }

  /** When no listed pair has its reverse listed, the removed set is exactly
      the mutual pairs. */
  lemma ExtractDone(identifies: seq<Pair>, removed: set<Pair>, rest: seq<Pair>)
    requires rest == Without(identifies, removed)
    requires forall p :: p in removed ==> p in identifies && Reverse(p) in removed
    requires forall k :: 0 <= k < |rest| ==> Reverse(rest[k]) !in rest
    ensures removed == Mutual(identifies)
    ensures rest == Without(identifies, Mutual(identifies))
  {
    assert forall q :: q in rest ==> Reverse(q) !in rest;
    forall p | p in Mutual(identifies) ensures Reverse(p) in removed {
      assert Reverse(Reverse(p)) == p;
    }
    forall p | p in identifies ensures (p in removed <==> p in Mutual(identifies)) {
      if p in Mutual(identifies) {
        assert Reverse(Reverse(p)) == p;
        assert Reverse(p) in removed;
      }
      if p in removed {
        assert Reverse(p) in identifies;
      }
    }
    WithoutSameOn(identifies, removed, Mutual(identifies));
  }

  /** x and y sit in one common group. */
  ghost predicate Together(groups: seq<seq<string>>, x: string, y: string) {
    exists m :: 0 <= m < |groups| && x in groups[m] && y in groups[m]
  }

  /** Every group of `groups` is contained in the group at the same position
      of `groups'`, and no group disappears. */
  ghost predicate Grown(groups: seq<seq<string>>, groups': seq<seq<string>>) {
    |groups| <= |groups'| && forall m, c :: 0 <= m < |groups| && c in groups[m] ==> c in groups'[m]
  }

  /** Each group is a set of at least two mutually identifying columns. */
  ghost predicate WellGrouped<A>(t: Contents<A>, groups: seq<seq<string>>)
    requires t.Valid()
  {
    forall g :: g in groups ==> |g| >= 2 && AllDistinct(g) && Clique(t, g)
  }

  /** Putting at position m a well-formed group that holds the old one and
      both columns of the pair keeps the groups well-formed, grows them and
      brings the pair together. */
  lemma JoinedAt<A>(t: Contents<A>, groups: seq<seq<string>>, m: nat, g: seq<string>, x: string, y: string)
    requires t.Valid() && m < |groups|
    requires forall k :: 0 <= k < |groups| && k != m ==> |groups[k]| >= 2 && AllDistinct(groups[k]) && Clique(t, groups[k])
    requires |g| >= 2 && AllDistinct(g) && Clique(t, g)
    requires forall c :: c in groups[m] ==> c in g
    requires x in g && y in g
    ensures WellGrouped(t, groups[m := g])
    ensures Grown(groups, groups[m := g])
    ensures Together(groups[m := g], x, y)
  {
    assert groups[m := g][m] == g;
  }

  lemma TogetherGrows(groups: seq<seq<string>>, groups': seq<seq<string>>, x: string, y: string)
    requires Together(groups, x, y) && Grown(groups, groups')
    ensures Together(groups', x, y)
  {
    var m :| 0 <= m < |groups| && x in groups[m] && y in groups[m];
    assert x in groups'[m] && y in groups'[m];
  }

  /** A group joined by a mutually identifying pair that shares a member
      with it stays a clique: everything is linked through the shared
      member. */
  lemma CliqueExtend<A>(t: Contents<A>, g: seq<string>, x: string, y: string, h: seq<string>)
    requires t.Valid() && Clique(t, g)
    requires SoundPair(t, (x, y)) && SoundPair(t, (y, x))
    requires x in g || y in g
    requires forall c :: c in h ==> c in g || c == x || c == y
    ensures Clique(t, h)
  {
    var hub := if x in g then x else y;
    assert forall c :: c in h && c != hub ==>
      t.CharacterizeColumnRelationship(c, hub) == Identifies &&
      t.CharacterizeColumnRelationship(hub, c) == Identifies;
    forall a, b | a in h && b in h && a != b
      ensures t.CharacterizeColumnRelationship(a, b) == Identifies
    {
      if a != hub && b != hub {
        IdentifiesTransitive(t.cols[a], t.cols[hub], t.cols[b]);
      }
    }
  }

  /** The position of the first group that holds x or y; |groups| when none does. */
  function FirstHolding(groups: seq<seq<string>>, x: string, y: string): (m: nat)
    ensures m <= |groups|
    ensures forall k :: 0 <= k < m ==> x !in groups[k] && y !in groups[k]
    ensures m < |groups| ==> x in groups[m] || y in groups[m]
  {
    if |groups| == 0 then 0
    else if x in groups[0] || y in groups[0] then 0
    else 1 + FirstHolding(groups[1..], x, y)
  }

  /** The group with c appended at its end, unless c is already there. */
  function AddMissing(g: seq<string>, c: string): seq<string> {
    if c in g then g else g + [c]
  }

  /** Lines 202-210 for the pair (x, y): the first group holding either
      column gains whichever of them it lacks; when no group holds either,
      [x, y] becomes a new last group. */
  function Join(groups: seq<seq<string>>, x: string, y: string): seq<seq<string>> {
    var m := FirstHolding(groups, x, y);
    if m < |groups| then groups[m := AddMissing(AddMissing(groups[m], x), y)]
    else groups + [[x, y]]
  }

  /** Lines 200-211: the groups after joining every pair of ps in turn. */
  function Grouped(ps: seq<Pair>): seq<seq<string>>
    decreases |ps|
  {
    if |ps| == 0 then []
    else Join(Grouped(ps[..|ps| - 1]), ps[|ps| - 1].0, ps[|ps| - 1].1)
  }

  /** Lines 201-210, one pair: the pair joins the first group that holds
      either column, or starts a new group. */
  method JoinFirstGroup<A(==)>(t: Contents<A>, groups: seq<seq<string>>, x: string, y: string)
    returns (groups': seq<seq<string>>)
    requires t.Valid() && WellGrouped(t, groups)
    requires SoundPair(t, (x, y)) && SoundPair(t, (y, x))
    ensures groups' == Join(groups, x, y)
    ensures WellGrouped(t, groups')
    ensures Grown(groups, groups')
    ensures Together(groups', x, y)
  {
    var m := 0;
    while m < |groups| && !(x in groups[m] || y in groups[m])
      invariant 0 <= m <= |groups|
      invariant forall k :: 0 <= k < m ==> x !in groups[k] && y !in groups[k]
    {
      m := m + 1;
    }
    assert m == FirstHolding(groups, x, y);
    if m < |groups| {
      var g := groups[m];
      if x !in g {
        g := g + [x];
      }
      if y !in g {
        g := g + [y];
      }
      JoinIntoGroup(t, groups, m, x, y);
      groups' := groups[m := g];
    } else {
      JoinAsNewGroup(t, groups, x, y);
      groups' := groups + [[x, y]];
      assert Together(groups', x, y);
    }
  }

  /** A mutually identifying pair appended as a group of its own keeps the
      groups well-formed. */
  lemma JoinAsNewGroup<A>(t: Contents<A>, groups: seq<seq<string>>, x: string, y: string)
    requires t.Valid() && WellGrouped(t, groups)
    requires SoundPair(t, (x, y)) && SoundPair(t, (y, x))
    ensures WellGrouped(t, groups + [[x, y]]) && Grown(groups, groups + [[x, y]])
    ensures Together(groups + [[x, y]], x, y)
  {
    CliqueExtend(t, [x], x, y, [x, y]);
    assert (groups + [[x, y]])[|groups|] == [x, y];
    assert forall g :: g in groups + [[x, y]] ==> g in groups || g == [x, y];
  }

  /** Adding the missing columns of a mutually identifying pair to a group
      that holds one of them keeps the groups well-formed. */
  lemma JoinIntoGroup<A>(t: Contents<A>, groups: seq<seq<string>>, m: nat, x: string, y: string)
    requires t.Valid() && WellGrouped(t, groups) && m < |groups|
    requires SoundPair(t, (x, y)) && SoundPair(t, (y, x))
    requires x in groups[m] || y in groups[m]
    ensures var g := AddMissing(AddMissing(groups[m], x), y);
            && WellGrouped(t, groups[m := g]) && Grown(groups, groups[m := g]) && Together(groups[m := g], x, y)
  {
    var g := groups[m];
    assert groups[m] in groups;
    if x !in g {
      DistinctSnoc(g, x);
    }
    var g1 := AddMissing(g, x);
    if y !in g1 {
      DistinctSnoc(g1, y);
    }
    var g2 := AddMissing(g1, y);
    CliqueExtend(t, g, x, y, g2);
    JoinedAt(t, groups, m, g2, x, y);
  }

  /** Lines 200-211: each bijective pair joins the first group that holds
      either of its columns, adding whichever column is missing; a pair that
      meets no group starts a new group [x, y]. Every group is a set of at
      least two mutually identifying columns, and both columns of every pair
      end up in one group. */
  method GroupBijectivePairs<A(==)>(t: Contents<A>, bijective: seq<Pair>) returns (groups: seq<seq<string>>)
    requires t.Valid()
    requires forall b :: b in bijective ==> SoundPair(t, b) && SoundPair(t, Reverse(b))
    ensures groups == Grouped(bijective)
    ensures WellGrouped(t, groups)
    ensures forall b :: b in bijective ==> Together(groups, b.0, b.1)
  {
    groups := [];
    var n := 0;
    while n < |bijective|
      invariant 0 <= n <= |bijective|
      invariant groups == Grouped(bijective[..n])
      invariant WellGrouped(t, groups)
      invariant forall k :: 0 <= k < n ==> Together(groups, bijective[k].0, bijective[k].1)
    {
      var (x, y) := bijective[n];
      assert SoundPair(t, (x, y)) && SoundPair(t, (y, x)) by {
        assert bijective[n] in bijective;
      }
      GroupedStep(bijective, n);
      ghost var before := groups;
      groups := JoinFirstGroup(t, groups, x, y);
      PairsStayTogether(bijective, n, before, groups);
      n := n + 1;
    }
    assert bijective[..n] == bijective;
  }

  lemma GroupedStep(ps: seq<Pair>, n: nat)
    requires n < |ps|
    ensures Grouped(ps[..n + 1]) == Join(Grouped(ps[..n]), ps[n].0, ps[n].1)
  {
    assert ps[..n + 1][..n] == ps[..n];
  }

  /** Growing the groups keeps the pairs already joined together. */
  lemma PairsStayTogether(ps: seq<Pair>, n: nat, groups: seq<seq<string>>, groups': seq<seq<string>>)
    requires n < |ps| && Grown(groups, groups')
    requires forall k :: 0 <= k < n ==> Together(groups, ps[k].0, ps[k].1)
    requires Together(groups', ps[n].0, ps[n].1)
    ensures forall k :: 0 <= k < n + 1 ==> Together(groups', ps[k].0, ps[k].1)
  {
    forall k | 0 <= k < n ensures Together(groups', ps[k].0, ps[k].1) {
      TogetherGrows(groups, groups', ps[k].0, ps[k].1);
    }
  }

  /** a and b are candidates that identify each other. */
  ghost predicate Mutually<A>(t: Contents<A>, a: string, b: string)
    requires t.Valid()
  {
    SoundPair(t, (a, b)) && SoundPair(t, (b, a))
  }

  /** Mutual identification is transitive, because Identifies is. */
  lemma MutuallyTransitive<A>(t: Contents<A>, a: string, b: string, c: string)
    requires t.Valid()
    ensures Mutually(t, a, b) && Mutually(t, b, c) && a != c ==> Mutually(t, a, c)
  {
    if Mutually(t, a, b) && Mutually(t, b, c) && a != c {
      IdentifiesTransitive(t.cols[a], t.cols[b], t.cols[c]);
      IdentifiesTransitive(t.cols[c], t.cols[b], t.cols[a]);
    }
  }

  /** Every listed pair identifies both ways. */
  ghost predicate AllMutual<A>(t: Contents<A>, bs: seq<Pair>)
    requires t.Valid()
  {
    forall k :: 0 <= k < |bs| ==> Mutually(t, bs[k].0, bs[k].1)
  }

  /** The pairs are listed in the row-major order of their steps. */
  predicate RowMajor(order: seq<string>, bs: seq<Pair>) {
    forall k1, k2 :: 0 <= k1 < k2 < |bs| && bs[k1].0 in order && bs[k1].1 in order && bs[k2].0 in order && bs[k2].1 in order ==> Precedes(Step(order, bs[k1]), Step(order, bs[k2]))
  }

  /** What the grouping gets from the earlier phases, positions taken in
      `order` (the remaining columns): every pair is a mutual couple written
      earlier column first, the pairs follow the row-major order of the
      pairwise loop, and every mutual couple of candidates is there. */
  ghost predicate CouplesInOrder<A>(t: Contents<A>, order: seq<string>, bs: seq<Pair>)
    requires t.Valid()
  {
    && (forall c :: IsCandidate(t, c) ==> c in order)
    && AllMutual(t, bs)
    && (forall k :: 0 <= k < |bs| ==> ComesBefore(order, bs[k].0, bs[k].1))
    && RowMajor(order, bs)
    && (forall a, b :: Mutually(t, a, b) && ComesBefore(order, a, b) ==> (a, b) in bs)
  }

  /** Every group has at least two members, all candidates, and every
      member after the first was paired with the first by one of the first
      n pairs. */
  ghost predicate PairedWithHead<A>(t: Contents<A>, bs: seq<Pair>, n: nat, groups: seq<seq<string>>)
    requires t.Valid() && n <= |bs|
  {
    && (forall m :: 0 <= m < |groups| ==> |groups[m]| >= 2)
    && (forall m, c :: 0 <= m < |groups| && c in groups[m] ==> IsCandidate(t, c))
    && (forall m, k :: 0 <= m < |groups| && 0 < k < |groups[m]| ==> (groups[m][0], groups[m][k]) in bs[..n])
  }

  /** The first member of every group comes before every column it
      identifies with both ways. */
  ghost predicate HeadsEarliest<A>(t: Contents<A>, order: seq<string>, groups: seq<seq<string>>)
    requires t.Valid()
  {
    forall m, c :: 0 <= m < |groups| && |groups[m]| > 0 && Mutually(t, groups[m][0], c) ==> ComesBefore(order, groups[m][0], c)
  }

  /** The groups come in the column order of their first members. */
  predicate HeadsInOrder(order: seq<string>, groups: seq<seq<string>>) {
    forall m1, m2 :: 0 <= m1 < m2 < |groups| && |groups[m1]| > 0 && |groups[m2]| > 0 ==>
      ComesBefore(order, groups[m1][0], groups[m2][0])
  }

  /** Every group lists its members in column order. */
  predicate ColumnOrdered(order: seq<string>, groups: seq<seq<string>>) {
    forall m :: 0 <= m < |groups| ==> InOrderOf(groups[m], order)
  }

  /** The first n pairs each sit in one group. */
  ghost predicate AllTogether(bs: seq<Pair>, n: nat, groups: seq<seq<string>>)
    requires n <= |bs|
  {
    forall k :: 0 <= k < n ==> Together(groups, bs[k].0, bs[k].1)
  }

  /** No column is in two groups. */
  predicate Disjoint(groups: seq<seq<string>>) {
    forall m1, m2, c :: 0 <= m1 < m2 < |groups| && c in groups[m1] ==> c !in groups[m2]
  }

  /** No two groups hold columns that identify each other both ways. */
  ghost predicate Unrelated<A>(t: Contents<A>, groups: seq<seq<string>>)
    requires t.Valid()
  {
    forall m1, m2, c, d :: 0 <= m1 < |groups| && 0 <= m2 < |groups| && m1 != m2 && c in groups[m1] && d in groups[m2] ==> !Mutually(t, c, d)
  }

  /** The groups built from the first n pairs partition what they hold. */
  ghost predicate Partitioned<A>(t: Contents<A>, order: seq<string>, bs: seq<Pair>, n: nat, groups: seq<seq<string>>)
    requires t.Valid() && n <= |bs|
  {
    && PairedWithHead(t, bs, n, groups) && HeadsEarliest(t, order, groups) && ColumnOrdered(order, groups)
    && HeadsInOrder(order, groups)
    && AllTogether(bs, n, groups) && Disjoint(groups) && Unrelated(t, groups)
  }

  /** A mutual couple whose step comes before that of the n-th pair already
      sits in one group. */
  lemma EarlierTogether<A>(t: Contents<A>, order: seq<string>, bs: seq<Pair>, n: nat, groups: seq<seq<string>>,
                           a: string, b: string)
    requires t.Valid() && CouplesInOrder(t, order, bs) && n < |bs| && AllTogether(bs, n, groups)
    ensures Mutually(t, a, b) && ComesBefore(order, a, b) && ComesBefore(order, bs[n].0, bs[n].1) && Precedes(Step(order, (a, b)), Step(order, bs[n])) ==> Together(groups, a, b)
  {
    if Mutually(t, a, b) && ComesBefore(order, a, b) && ComesBefore(order, bs[n].0, bs[n].1) && Precedes(Step(order, (a, b)), Step(order, bs[n])) {
      var k :| 0 <= k < |bs| && bs[k] == (a, b);
      assert k < n;
    }
  }

  /** Every member of a group is its first member or identifies with it both ways. */
  lemma MembersLinkedToHead<A>(t: Contents<A>, order: seq<string>, bs: seq<Pair>, n: nat, groups: seq<seq<string>>, m: nat)
    requires t.Valid() && AllMutual(t, bs) && n <= |bs| && PairedWithHead(t, bs, n, groups)
    requires m < |groups|
    ensures forall c :: c in groups[m] ==> c == groups[m][0] || Mutually(t, groups[m][0], c)
  {
    forall c | c in groups[m] ensures c == groups[m][0] || Mutually(t, groups[m][0], c) {
      var k :| 0 <= k < |groups[m]| && groups[m][k] == c;
      if k > 0 {
        assert (groups[m][0], groups[m][k]) in bs[..n];
        var j :| 0 <= j < n && bs[..n][j] == (groups[m][0], c);
        assert bs[j] == (groups[m][0], c);
      }
    }
  }

  /** A pair that meets no group starts a new one, and the partition facts
      carry over. */
  lemma JoinStepNew<A>(t: Contents<A>, order: seq<string>, bs: seq<Pair>, n: nat, groups: seq<seq<string>>)
    requires t.Valid() && CouplesInOrder(t, order, bs) && n < |bs| && Partitioned(t, order, bs, n, groups)
    requires FirstHolding(groups, bs[n].0, bs[n].1) == |groups|
    ensures Partitioned(t, order, bs, n + 1, groups + [[bs[n].0, bs[n].1]])
  {
    var (x, y) := bs[n];
    assert Mutually(t, x, y) && ComesBefore(order, x, y);
    NewHeadEarliest(t, order, bs, n, groups);
    NewPairApart(t, order, bs, n, groups);
    NewGroupPaired(t, bs, n, groups);
    NewGroupHeads(t, order, groups, x, y);
    NewGroupOrdered(order, groups, x, y);
    NewGroupLast(order, bs, n, groups);
    NewGroupTogether(bs, n, groups);
    NewGroupUnrelated(t, groups, x, y);
    assert Disjoint(groups + [[x, y]]);
  }

  /** A pair meeting no group has the earliest column of its class first. */
  lemma NewHeadEarliest<A>(t: Contents<A>, order: seq<string>, bs: seq<Pair>, n: nat, groups: seq<seq<string>>)
    requires t.Valid() && CouplesInOrder(t, order, bs) && n < |bs| && AllTogether(bs, n, groups)
    requires FirstHolding(groups, bs[n].0, bs[n].1) == |groups|
    ensures forall c :: Mutually(t, bs[n].0, c) ==> ComesBefore(order, bs[n].0, c)
  {
    forall c | Mutually(t, bs[n].0, c) ensures ComesBefore(order, bs[n].0, c) {
      EarlierTogether(t, order, bs, n, groups, c, bs[n].0);
    }
  }

  /** A pair meeting no group is related to no member of any group. */
  lemma NewPairApart<A>(t: Contents<A>, order: seq<string>, bs: seq<Pair>, n: nat, groups: seq<seq<string>>)
    requires t.Valid() && CouplesInOrder(t, order, bs) && n < |bs|
    requires AllTogether(bs, n, groups) && PairedWithHead(t, bs, n, groups) && HeadsEarliest(t, order, groups)
    requires FirstHolding(groups, bs[n].0, bs[n].1) == |groups|
    ensures forall m1, c, d :: 0 <= m1 < |groups| && c in groups[m1] && (d == bs[n].0 || d == bs[n].1) ==> !Mutually(t, c, d)
  {
    var (x, y) := bs[n];
    forall m1, c, d | 0 <= m1 < |groups| && c in groups[m1] && (d == x || d == y)
      ensures !Mutually(t, c, d)
    {
      var h := groups[m1][0];
      MembersLinkedToHead(t, order, bs, n, groups, m1);
      MutuallyTransitive(t, h, c, d);
      MutuallyTransitive(t, h, d, x);
      assert Mutually(t, h, x) ==> ComesBefore(order, h, x);
      EarlierTogether(t, order, bs, n, groups, h, x);
    }
  }

  lemma NewGroupPaired<A>(t: Contents<A>, bs: seq<Pair>, n: nat, groups: seq<seq<string>>)
    requires t.Valid() && n < |bs| && PairedWithHead(t, bs, n, groups)
    requires Mutually(t, bs[n].0, bs[n].1)
    ensures PairedWithHead(t, bs, n + 1, groups + [[bs[n].0, bs[n].1]])
  {
    var gs := groups + [[bs[n].0, bs[n].1]];
    assert bs[..n + 1] == bs[..n] + [bs[n]];
    assert gs[|groups|] == [bs[n].0, bs[n].1];
    forall m | 0 <= m < |groups| ensures gs[m] == groups[m] { }
  }

  lemma NewGroupHeads<A>(t: Contents<A>, order: seq<string>, groups: seq<seq<string>>, x: string, y: string)
    requires t.Valid() && HeadsEarliest(t, order, groups)
    requires forall c :: Mutually(t, x, c) ==> ComesBefore(order, x, c)
    ensures HeadsEarliest(t, order, groups + [[x, y]])
  {
    var gs := groups + [[x, y]];
    assert gs[|groups|][0] == x;
    forall m | 0 <= m < |groups| ensures gs[m] == groups[m] { }
  }

  lemma NewGroupOrdered(order: seq<string>, groups: seq<seq<string>>, x: string, y: string)
    requires ColumnOrdered(order, groups) && ComesBefore(order, x, y)
    ensures ColumnOrdered(order, groups + [[x, y]])
  {
    var gs := groups + [[x, y]];
    assert gs[|groups|] == [x, y];
    forall m | 0 <= m < |groups| ensures gs[m] == groups[m] { }
  }

  /** A pair meeting no group comes, by the row-major order, after the first
      pair of every group, so its group is the last in head order too. */
  lemma NewGroupLast(order: seq<string>, bs: seq<Pair>, n: nat, groups: seq<seq<string>>)
    requires RowMajor(order, bs) && n < |bs|
    requires forall k :: 0 <= k < |bs| ==> ComesBefore(order, bs[k].0, bs[k].1)
    requires forall m :: 0 <= m < |groups| ==> |groups[m]| >= 2
    requires forall m, k :: 0 <= m < |groups| && 0 < k < |groups[m]| ==> (groups[m][0], groups[m][k]) in bs[..n]
    requires HeadsInOrder(order, groups)
    requires forall m :: 0 <= m < |groups| ==> bs[n].0 !in groups[m]
    ensures HeadsInOrder(order, groups + [[bs[n].0, bs[n].1]])
  {
    var (x, y) := bs[n];
    var gs := groups + [[x, y]];
    forall m | 0 <= m < |groups| ensures ComesBefore(order, groups[m][0], x) {
      var h := groups[m][0];
      assert (h, groups[m][1]) in bs[..n];
      var j :| 0 <= j < n && bs[..n][j] == (h, groups[m][1]);
      assert h in groups[m];
      HeadBeforeNewPair(order, bs, j, n);
    }
    NewLastHead(order, groups, x, y);
  }

  /** The first column of an earlier pair of a row-major list comes no
      later than that of a later pair. */
  lemma HeadBeforeNewPair(order: seq<string>, bs: seq<Pair>, j: nat, n: nat)
    requires RowMajor(order, bs) && j < n < |bs|
    requires ComesBefore(order, bs[j].0, bs[j].1) && ComesBefore(order, bs[n].0, bs[n].1)
    ensures bs[j].0 == bs[n].0 || ComesBefore(order, bs[j].0, bs[n].0)
  {
    assert Precedes(Step(order, bs[j]), Step(order, bs[n]));
    if IndexOf(order, bs[j].0) == IndexOf(order, bs[n].0) {
      assert bs[j].0 == order[IndexOf(order, bs[j].0)];
    }
  }

  lemma NewLastHead(order: seq<string>, groups: seq<seq<string>>, x: string, y: string)
    requires HeadsInOrder(order, groups)
    requires forall m :: 0 <= m < |groups| ==> |groups[m]| > 0 && ComesBefore(order, groups[m][0], x)
    ensures HeadsInOrder(order, groups + [[x, y]])
  {
    var gs := groups + [[x, y]];
    assert gs[|groups|][0] == x;
    assert forall m :: 0 <= m < |groups| ==> gs[m] == groups[m];
  }

  lemma NewGroupTogether(bs: seq<Pair>, n: nat, groups: seq<seq<string>>)
    requires n < |bs| && AllTogether(bs, n, groups)
    ensures AllTogether(bs, n + 1, groups + [[bs[n].0, bs[n].1]])
  {
    var gs := groups + [[bs[n].0, bs[n].1]];
    forall k | 0 <= k < n + 1 ensures Together(gs, bs[k].0, bs[k].1) {
      if k < n {
        var m :| 0 <= m < |groups| && bs[k].0 in groups[m] && bs[k].1 in groups[m];
        assert gs[m] == groups[m];
      } else {
        assert gs[|groups|] == [bs[n].0, bs[n].1];
      }
    }
  }

  lemma NewGroupUnrelated<A>(t: Contents<A>, groups: seq<seq<string>>, x: string, y: string)
    requires t.Valid() && Unrelated(t, groups)
    requires forall m1, c, d :: 0 <= m1 < |groups| && c in groups[m1] && (d == x || d == y) ==> !Mutually(t, c, d)
    ensures Unrelated(t, groups + [[x, y]])
  {
    var gs := groups + [[x, y]];
    assert gs[|groups|] == [x, y];
    forall m | 0 <= m < |groups| ensures gs[m] == groups[m] { }
    forall m1, m2, c, d | 0 <= m1 < |gs| && 0 <= m2 < |gs| && m1 != m2 && c in gs[m1] && d in gs[m2]
      ensures !Mutually(t, c, d)
    {
      if m1 == |groups| {
        assert !Mutually(t, d, c);
      }
    }
  }

  /** A pair that meets a group joins it, and the partition facts carry over. */
  lemma JoinStepExisting<A>(t: Contents<A>, order: seq<string>, bs: seq<Pair>, n: nat, groups: seq<seq<string>>)
    requires t.Valid() && CouplesInOrder(t, order, bs) && n < |bs| && Partitioned(t, order, bs, n, groups)
    requires FirstHolding(groups, bs[n].0, bs[n].1) < |groups|
    ensures var m := FirstHolding(groups, bs[n].0, bs[n].1);
            Partitioned(t, order, bs, n + 1, groups[m := AddMissing(AddMissing(groups[m], bs[n].0), bs[n].1)])
  {
    var (x, y) := bs[n];
    var m := FirstHolding(groups, x, y);
    var g := groups[m];
    var h := g[0];
    assert Mutually(t, x, y) && ComesBefore(order, x, y);
    MembersLinkedToHead(t, order, bs, n, groups, m);
    MutuallyTransitive(t, h, y, x);
    assert h == x || Mutually(t, h, x);
    EarlierTogether(t, order, bs, n, groups, h, x);
    assert x in g;
    MutuallyTransitive(t, h, x, y);
    EarlierTogether(t, order, bs, n, groups, h, y);
    assert y in g || x == h;
    JoinedPaired(t, bs, n, groups, m);
    JoinedHeads(t, order, groups, m, x, y);
    JoinedHeadsInOrder(order, groups, m, x, y);
    JoinedOrdered(t, order, bs, n, groups, m);
    JoinedTogether(bs, n, groups, m);
    JoinedApart(t, groups, m, x, y);
  }

  lemma JoinedPaired<A>(t: Contents<A>, bs: seq<Pair>, n: nat, groups: seq<seq<string>>, m: nat)
    requires t.Valid() && n < |bs| && PairedWithHead(t, bs, n, groups) && Mutually(t, bs[n].0, bs[n].1)
    requires m < |groups| && bs[n].0 in groups[m] && (bs[n].1 in groups[m] || bs[n].0 == groups[m][0])
    ensures PairedWithHead(t, bs, n + 1, groups[m := AddMissing(AddMissing(groups[m], bs[n].0), bs[n].1)])
  {
    var g := groups[m];
    var g' := AddMissing(AddMissing(g, bs[n].0), bs[n].1);
    assert bs[..n + 1] == bs[..n] + [bs[n]];
    assert g' == g || g' == g + [bs[n].1];
    assert g'[0] == g[0];
  }

  lemma JoinedHeads<A>(t: Contents<A>, order: seq<string>, groups: seq<seq<string>>, m: nat, x: string, y: string)
    requires t.Valid() && HeadsEarliest(t, order, groups)
    requires m < |groups| && x in groups[m]
    ensures HeadsEarliest(t, order, groups[m := AddMissing(AddMissing(groups[m], x), y)])
  {
    var g' := AddMissing(AddMissing(groups[m], x), y);
    assert g'[0] == groups[m][0];
  }

  lemma JoinedHeadsInOrder(order: seq<string>, groups: seq<seq<string>>, m: nat, x: string, y: string)
    requires HeadsInOrder(order, groups) && m < |groups| && |groups[m]| > 0
    ensures HeadsInOrder(order, groups[m := AddMissing(AddMissing(groups[m], x), y)])
  {
    var gs := groups[m := AddMissing(AddMissing(groups[m], x), y)];
    assert gs[m][0] == groups[m][0];
    assert forall k :: 0 <= k < |gs| && k != m ==> gs[k] == groups[k];
  }

  lemma JoinedOrdered<A>(t: Contents<A>, order: seq<string>, bs: seq<Pair>, n: nat, groups: seq<seq<string>>, m: nat)
    requires t.Valid() && n < |bs| && PairedWithHead(t, bs, n, groups)
    requires RowMajor(order, bs) && forall k :: 0 <= k < |bs| ==> ComesBefore(order, bs[k].0, bs[k].1)
    requires ColumnOrdered(order, groups)
    requires m < |groups| && bs[n].0 in groups[m] && (bs[n].1 in groups[m] || bs[n].0 == groups[m][0])
    ensures ColumnOrdered(order, groups[m := AddMissing(AddMissing(groups[m], bs[n].0), bs[n].1)])
  {
    var (x, y) := bs[n];
    var g := groups[m];
    if y !in g {
      assert AddMissing(AddMissing(g, x), y) == g + [y];
      assert ComesBefore(order, x, y);
      forall k | 0 <= k < |g| ensures ComesBefore(order, g[k], y) {
        if k > 0 {
          assert (g[0], g[k]) in bs[..n];
          var j :| 0 <= j < n && bs[..n][j] == (g[0], g[k]);
          assert Precedes(Step(order, bs[j]), Step(order, bs[n]));
        }
      }
      InOrderSnoc(g, order, y);
    }
  }

  /** A list in order stays in order when an element placed after all of
      its elements is appended. */
  lemma InOrderSnoc<T>(s: seq<T>, order: seq<T>, x: T)
    requires InOrderOf(s, order)
    requires x in order && forall k :: 0 <= k < |s| ==> ComesBefore(order, s[k], x)
    ensures InOrderOf(s + [x], order)
  {
    var s' := s + [x];
    assert forall c :: c in s' ==> c in s || c == x;
    forall a, b | 0 <= a < b < |s'| && s'[a] in order && s'[b] in order
      ensures IndexOf(order, s'[a]) < IndexOf(order, s'[b])
    {
      assert s'[a] == s[a];
      if b < |s| {
        assert s'[b] == s[b];
      }
    }
  }

  lemma JoinedTogether(bs: seq<Pair>, n: nat, groups: seq<seq<string>>, m: nat)
    requires n < |bs| && AllTogether(bs, n, groups) && m < |groups|
    ensures AllTogether(bs, n + 1, groups[m := AddMissing(AddMissing(groups[m], bs[n].0), bs[n].1)])
  {
    var gs := groups[m := AddMissing(AddMissing(groups[m], bs[n].0), bs[n].1)];
    forall k | 0 <= k < n + 1 ensures Together(gs, bs[k].0, bs[k].1) {
      if k < n {
        var m1 :| 0 <= m1 < |groups| && bs[k].0 in groups[m1] && bs[k].1 in groups[m1];
        assert bs[k].0 in gs[m1] && bs[k].1 in gs[m1];
      } else {
        assert bs[n].0 in gs[m] && bs[n].1 in gs[m];
      }
    }
  }

  /** Adding to group m a column that identifies both ways with one of its
      members keeps the groups disjoint and unrelated. */
  lemma JoinedApart<A>(t: Contents<A>, groups: seq<seq<string>>, m: nat, x: string, y: string)
    requires t.Valid() && Disjoint(groups) && Unrelated(t, groups)
    requires m < |groups| && x in groups[m] && Mutually(t, x, y)
    ensures var gs := groups[m := AddMissing(AddMissing(groups[m], x), y)];
            Disjoint(gs) && Unrelated(t, gs)
  {
    var g' := AddMissing(AddMissing(groups[m], x), y);
    var gs := groups[m := g'];
    assert forall c :: c in g' ==> c in groups[m] || c == y;
    forall m2, d | 0 <= m2 < |groups| && m2 != m && d in groups[m2] ensures !Mutually(t, y, d) && !Mutually(t, d, y) && y != d {
      MutuallyTransitive(t, x, y, d);
    }
  }

  /** Two mutual pairs of the classification list appear in the row-major
      order of their steps. */
  lemma ListedInStepOrder<A>(t: Contents<A>, remaining: seq<string>, all: seq<Pair>, p: Pair, q: Pair)
    requires t.Valid() && MutualRowMajor(t, remaining, all)
    requires p in all && q in all && MutualIn(t, remaining, p) && MutualIn(t, remaining, q)
    ensures IndexOf(all, p) < IndexOf(all, q) ==> Precedes(Step(remaining, p), Step(remaining, q))
  {
  }

  /** The hypotheses on the classification list and on the pairs picked out
      of it that CouplesInOrder relies on. */
  ghost predicate PickedInOrder<A>(t: Contents<A>, remaining: seq<string>, all: seq<Pair>, pairs: seq<Pair>)
    requires t.Valid()
  {
    && (forall c :: c in remaining ==> c in t.names)
    && (forall c :: c in remaining <==> IsCandidate(t, c))
    && (forall p :: p in all ==> p.0 in remaining && p.1 in remaining && p.0 != p.1)
    && (forall p :: p in all ==> t.CharacterizeColumnRelationship(p.0, p.1) == Identifies)
    && MutualRowMajor(t, remaining, all)
    && (forall b :: b in pairs ==> b in all && Reverse(b) in all)
    && (forall b :: b in pairs ==> ComesBefore(all, b, Reverse(b)))
    && (forall p :: ComesBefore(all, p, Reverse(p)) ==> p in pairs)
    && (forall k1, k2 :: 0 <= k1 < k2 < |pairs| ==> IndexOf(all, pairs[k1]) < IndexOf(all, pairs[k2]))
  }

  /** Each picked pair has its first column earlier. */
  lemma PickedForward<A>(t: Contents<A>, remaining: seq<string>, all: seq<Pair>, pairs: seq<Pair>)
    requires t.Valid() && PickedInOrder(t, remaining, all, pairs)
    ensures forall k :: 0 <= k < |pairs| ==> ComesBefore(remaining, pairs[k].0, pairs[k].1)
  {
    forall k | 0 <= k < |pairs| ensures ComesBefore(remaining, pairs[k].0, pairs[k].1) {
      var b := pairs[k];
      assert b in pairs;
      ListedInStepOrder(t, remaining, all, b, Reverse(b));
    }
  }

  /** The picked pairs are listed in row-major step order. */
  lemma PickedRowMajor<A>(t: Contents<A>, remaining: seq<string>, all: seq<Pair>, pairs: seq<Pair>)
    requires t.Valid() && PickedInOrder(t, remaining, all, pairs)
    ensures RowMajor(remaining, pairs)
  {
    forall k1, k2 | 0 <= k1 < k2 < |pairs| && pairs[k1].0 in remaining && pairs[k1].1 in remaining && pairs[k2].0 in remaining && pairs[k2].1 in remaining
      ensures Precedes(Step(remaining, pairs[k1]), Step(remaining, pairs[k2]))
    {
      assert pairs[k1] in pairs && pairs[k2] in pairs;
      ListedInStepOrder(t, remaining, all, pairs[k1], pairs[k2]);
    }
  }

  /** Every mutual couple, earlier column first, is picked. */
  lemma PickedComplete<A>(t: Contents<A>, remaining: seq<string>, all: seq<Pair>, pairs: seq<Pair>)
    requires t.Valid() && PickedInOrder(t, remaining, all, pairs)
    requires forall x :: x in remaining ==> RowCovered(t, remaining, all, x)
    ensures forall a, b :: Mutually(t, a, b) && ComesBefore(remaining, a, b) ==> (a, b) in pairs
  {
    forall a, b | Mutually(t, a, b) && ComesBefore(remaining, a, b) ensures (a, b) in pairs {
      assert a in remaining && b in remaining;
      assert RowCovered(t, remaining, all, a) && RowCovered(t, remaining, all, b);
      assert (a, b) in all && (b, a) in all;
      assert MutualIn(t, remaining, (a, b)) && MutualIn(t, remaining, (b, a));
      ListedInStepOrder(t, remaining, all, (b, a), (a, b));
      assert IndexOf(all, (a, b)) != IndexOf(all, (b, a));
      assert ComesBefore(all, (a, b), Reverse((a, b)));
    }
  }

  /** Lines 196-199 pick the mutual pairs so that CouplesInOrder holds of
      them, in the order of the remaining columns. */
  lemma PickedCouples<A>(t: Contents<A>, remaining: seq<string>, all: seq<Pair>, pairs: seq<Pair>)
    requires t.Valid() && PickedInOrder(t, remaining, all, pairs)
    requires forall x :: x in remaining ==> RowCovered(t, remaining, all, x)
    requires forall b :: b in pairs ==> SoundPair(t, b) && SoundPair(t, Reverse(b))
    ensures CouplesInOrder(t, remaining, pairs)
  {
    PickedForward(t, remaining, all, pairs);
    PickedRowMajor(t, remaining, all, pairs);
    PickedComplete(t, remaining, all, pairs);
    forall k | 0 <= k < |pairs| ensures Mutually(t, pairs[k].0, pairs[k].1) {
      assert pairs[k] in pairs;
    }
  }

  /** Order within a sub-list carries over to the list it follows. */
  lemma InOrderThrough<T>(s: seq<T>, mid: seq<T>, order: seq<T>)
    requires InOrderOf(s, mid) && InOrderOf(mid, order)
    ensures InOrderOf(s, order)
  {
    forall a, b | 0 <= a < b < |s| && s[a] in order && s[b] in order
      ensures IndexOf(order, s[a]) < IndexOf(order, s[b])
    {
      var i, j := IndexOf(mid, s[a]), IndexOf(mid, s[b]);
      assert i < j;
    }
  }

  /** One element before another in a sub-list stays before it in the list
      the sub-list follows. */
  lemma ComesBeforeThrough<T>(mid: seq<T>, order: seq<T>, x: T, y: T)
    requires InOrderOf(mid, order)
    ensures ComesBefore(mid, x, y) ==> ComesBefore(order, x, y)
  {
    if ComesBefore(mid, x, y) {
      IndexOfAt(mid, IndexOf(mid, x));
      assert mid[IndexOf(mid, x)] == x && mid[IndexOf(mid, y)] == y;
    }
  }

  /** The groups of lines 200-211, built from the pairs picked out of the
      remaining columns, are one per mutual class: disjoint, unrelated to
      each other, each in the table's column order and headed by the
      earliest column of its class. */
  lemma GroupsPartitionClasses<A>(t: Contents<A>, remaining: seq<string>, pairs: seq<Pair>)
    requires t.Valid() && CouplesInOrder(t, remaining, pairs) && InOrderOf(remaining, t.names)
    ensures var groups := Grouped(pairs);
            Disjoint(groups) && Unrelated(t, groups) &&
            ColumnOrdered(t.names, groups) && HeadsEarliest(t, t.names, groups) && HeadsInOrder(t.names, groups)
  {
    GroupedPartitioned(t, remaining, pairs, |pairs|);
    assert pairs[..|pairs|] == pairs;
    var groups := Grouped(pairs);
    forall m | 0 <= m < |groups| ensures InOrderOf(groups[m], t.names) {
      InOrderThrough(groups[m], remaining, t.names);
    }
    forall m, c | 0 <= m < |groups| && |groups[m]| > 0 && Mutually(t, groups[m][0], c)
      ensures ComesBefore(t.names, groups[m][0], c)
    {
      ComesBeforeThrough(remaining, t.names, groups[m][0], c);
    }
    forall m1, m2 | 0 <= m1 < m2 < |groups| && |groups[m1]| > 0 && |groups[m2]| > 0
      ensures ComesBefore(t.names, groups[m1][0], groups[m2][0])
    {
      ComesBeforeThrough(remaining, t.names, groups[m1][0], groups[m2][0]);
    }
  }

  /** Lines 200-211 make exactly one group per mutual class: the groups are
      disjoint, each lists its members in column order, and its first
      member is the earliest column of its class. */
  lemma {:induction false} GroupedPartitioned<A>(t: Contents<A>, order: seq<string>, bs: seq<Pair>, n: nat)
    requires t.Valid() && CouplesInOrder(t, order, bs) && n <= |bs|
    ensures Partitioned(t, order, bs, n, Grouped(bs[..n]))
  {
    if n > 0 {
      GroupedPartitioned(t, order, bs, n - 1);
      GroupedStepPartitioned(t, order, bs, n - 1);
    }
  }

  lemma GroupedStepPartitioned<A>(t: Contents<A>, order: seq<string>, bs: seq<Pair>, n: nat)
    requires t.Valid() && CouplesInOrder(t, order, bs) && n < |bs| && Partitioned(t, order, bs, n, Grouped(bs[..n]))
    ensures Partitioned(t, order, bs, n + 1, Grouped(bs[..n + 1]))
  {
    GroupedStep(bs, n);
    JoinStep(t, order, bs, n, Grouped(bs[..n]));
  }

  /** One pair joined: the partition facts carry over to the next step. */
  lemma JoinStep<A>(t: Contents<A>, order: seq<string>, bs: seq<Pair>, n: nat, groups: seq<seq<string>>)
    requires t.Valid() && CouplesInOrder(t, order, bs) && n < |bs| && Partitioned(t, order, bs, n, groups)
    ensures Partitioned(t, order, bs, n + 1, Join(groups, bs[n].0, bs[n].1))
  {
    if FirstHolding(groups, bs[n].0, bs[n].1) < |groups| {
      JoinStepExisting(t, order, bs, n, groups);
    } else {
      JoinStepNew(t, order, bs, n, groups);
    }
  }

  /** y belongs to some group without being its first member (the group's key). */
  ghost predicate NonFirstMember(groups: seq<seq<string>>, y: string) {
    exists m :: 0 <= m < |groups| && y in groups[m] && groups[m][0] != y
  }

  /** Lines 218-220: the pair is removed once for every group that holds
      its dependent as a non-first member; a removal of a pair no longer
      listed changes nothing. */
  function RemoveForGroups(ps: seq<Pair>, pair: Pair, groups: seq<seq<string>>): (r: seq<Pair>)
    ensures |r| <= |ps|
    ensures forall p :: p in r ==> p in ps
    decreases |groups|
  {
    if |groups| == 0 then ps
    else
      var g := groups[0];
      var ps' := if pair.1 in g && g[0] != pair.1 then RemoveFirst(ps, pair) else ps;
      RemoveForGroups(ps', pair, groups[1..])
  }

  /** Lines 214-221 as written: the pair at position i is examined and i
      advances whether or not the pair was removed, so the pair that moves
      into position i after a removal is never examined. */
  function Prune(ps: seq<Pair>, groups: seq<seq<string>>, i: nat): seq<Pair>
    decreases |ps| - i
  {
    if i >= |ps| then ps
    else Prune(RemoveForGroups(ps, ps[i], groups), groups, i + 1)
  }

  /** With distinct pairs, the group loop removes the pair exactly when its
      dependent is a non-first member of some group. */
  lemma {:induction false} RemoveForGroupsFilters(ps: seq<Pair>, pair: Pair, groups: seq<seq<string>>)
    requires AllDistinct(ps)
    ensures RemoveForGroups(ps, pair, groups) ==
            Without(ps, if NonFirstMember(groups, pair.1) then {pair} else {})
    decreases |groups|
  {
    if |groups| == 0 {
      WithoutNothing(ps, {});
    } else {
      var g := groups[0];
      if pair.1 in g && g[0] != pair.1 {
        RemoveFirstIsWithout(ps, pair);
        var ps' := RemoveFirst(ps, pair);
        RemoveForGroupsFilters(ps', pair, groups[1..]);
        assert NonFirstMember(groups, pair.1) by {
          assert pair.1 in groups[0] && groups[0][0] != pair.1;
        }
        if NonFirstMember(groups[1..], pair.1) {
          WithoutWithout(ps, {pair}, {pair});
        } else {
          WithoutWithout(ps, {pair}, {});
        }
        assert {pair} + {pair} == {pair} + {} == {pair};
      } else {
        RemoveForGroupsFilters(ps, pair, groups[1..]);
        assert NonFirstMember(groups, pair.1) <==> NonFirstMember(groups[1..], pair.1) by {
          if NonFirstMember(groups, pair.1) {
            var m :| 0 <= m < |groups| && pair.1 in groups[m] && groups[m][0] != pair.1;
            assert m != 0;
            assert pair.1 in groups[1..][m - 1];
          }
          if NonFirstMember(groups[1..], pair.1) {
            var m :| 0 <= m < |groups| - 1 && pair.1 in groups[1..][m] && groups[1..][m][0] != pair.1;
            assert groups[m + 1] == groups[1..][m];
          }
        }
      }
    }
  }

  /** The pruning only filters: its result is the input with some pairs
      dropped, order kept, and every dropped pair has a dependent that is a
      non-first member of a group. */
  lemma {:induction false} PruneFilters(ps: seq<Pair>, groups: seq<seq<string>>, i: nat)
    requires AllDistinct(ps)
    ensures AllDistinct(Prune(ps, groups, i))
    ensures forall p :: p in Prune(ps, groups, i) ==> p in ps
    ensures forall p :: p in ps && p !in Prune(ps, groups, i) ==> NonFirstMember(groups, p.1)
    ensures Prune(ps, groups, i) == Without(ps, set p | p in ps && p !in Prune(ps, groups, i))
    decreases |ps| - i
  {
    var r := Prune(ps, groups, i);
    if i >= |ps| {
      WithoutNothing(ps, set p | p in ps && p !in r);
    } else {
      var pair := ps[i];
      var drop := if NonFirstMember(groups, pair.1) then {pair} else {};
      var ps' := RemoveForGroups(ps, pair, groups);
      RemoveForGroupsFilters(ps, pair, groups);
      PruneFilters(ps', groups, i + 1);
      var d' := set p | p in ps' && p !in r;
      WithoutWithout(ps, drop, d');
      WithoutSameOn(ps, drop + d', set p | p in ps && p !in r);
    }
  }

  /** The consequence of advancing after a removal: of two consecutive pairs
      with the same redundant dependent, the second survives. */
  lemma PruneSkipsAfterRemoval()
    ensures Prune([("c", "b"), ("d", "b")], [["a", "b"]], 0) == [("d", "b")]
    ensures NonFirstMember([["a", "b"]], "b")
  {
    var groups := [["a", "b"]];
    var ps := [("c", "b"), ("d", "b")];
    assert RemoveFirst(ps, ("c", "b")) == [("d", "b")];
    assert RemoveForGroups(ps, ("c", "b"), groups) == [("d", "b")];
    assert "b" in groups[0] && groups[0][0] != "b";
  }

  /** Lines 214-221: the pruning loop over the identification list. */
  method PruneIdentifications(identifies: seq<Pair>, groups: seq<seq<string>>) returns (r: seq<Pair>)
    ensures r == Prune(identifies, groups, 0)
  {
    r := identifies;
    var i := 0;
    while i < |r|
      invariant Prune(r, groups, i) == Prune(identifies, groups, 0)
      decreases |r| - i
    {
      var pair := r[i];
      ghost var start := r;
      var k := 0;
      while k < |groups|
        invariant 0 <= k <= |groups|
        invariant RemoveForGroups(r, pair, groups[k..]) == RemoveForGroups(start, pair, groups)
      {
        var g := groups[k];
        assert groups[k..][1..] == groups[k + 1..];
        if pair.1 in g && g[0] != pair.1 {
          r := RemoveFirst(r, pair);
        }
        k := k + 1;
      }
      i := i + 1;
    }
  }

  /** What `detect_column_relationships` (lines 142-223) finds in t.
      Unique and Constant hold exactly the all-distinct and the
      single-valued columns; Independent holds exactly the other columns
      that no other such column identifies; every Identifies pair is a
      one-directional identification among those columns, and each such
      identification is listed unless its dependent is a non-first member of
      a Bijective group. The Bijective groups are the classes of mutually
      identifying columns, one group per class: every group is a set of at
      least two mutually identifying columns, any two mutually identifying
      columns share a group, no column sits in two groups, columns of
      different groups do not identify each other both ways, and each group
      lists its columns in the table's order, so that its first column is
      the earliest of its class. */
  ghost predicate Detected<A>(t: Contents<A>, r: Relationships)
    requires t.Valid()
  {
    ClassesFound(t, r) && IdentifiesFound(t, r) && GroupsFound(t, r)
  }

  /** Unique, Constant and Independent, as Detected describes them. */
  ghost predicate ClassesFound<A>(t: Contents<A>, r: Relationships)
    requires t.Valid()
  {
    && (forall c :: c in r.unique ==> c in t.names && IsUnique(t, c))
    && (forall c :: c in t.names && IsUnique(t, c) ==> c in r.unique)
    && (forall c :: c in r.constant ==> c in t.names && IsConstant(t, c))
    && (forall c :: c in t.names && IsConstant(t, c) ==> c in r.constant)
    && (forall c :: c in r.independent ==> IsCandidate(t, c) && !IsDetermined(t, c))
    && (forall c :: IsCandidate(t, c) && !IsDetermined(t, c) ==> c in r.independent)
    && AllDistinct(r.independent) && AllDistinct(r.constant) && AllDistinct(r.unique)
    && InOrderOf(r.independent, t.names) && InOrderOf(r.constant, t.names) && InOrderOf(r.unique, t.names)
  }

  /** What lines 167-197 leave in the Identifies list: the pairs the
      row-major steps record, in that order, without the mutual pairs. */
  ghost function OneWayList<A>(t: Contents<A>): seq<Pair>
    requires t.Valid()
  {
    var all := PairwiseList(t, Candidates(t));
    Without(all, Mutual(all))
  }

  /** The Identifies list, as Detected describes it. */
  ghost predicate IdentifiesFound<A>(t: Contents<A>, r: Relationships)
    requires t.Valid()
  {
    && r.identifies == Prune(OneWayList(t), r.bijective, 0)
    && AllDistinct(r.identifies)
    && (forall p :: p in r.identifies ==> OneWay(t, p))
    && (forall p :: p in r.identifies ==> Reverse(p) !in r.identifies)
    && (forall x, y :: OneWay(t, (x, y)) && !NonFirstMember(r.bijective, y) ==> (x, y) in r.identifies)
  }

  /** The Bijective groups, as Detected describes them. */
  ghost predicate GroupsFound<A>(t: Contents<A>, r: Relationships)
    requires t.Valid()
  {
    && WellGrouped(t, r.bijective)
    && (forall x, y :: SoundPair(t, (x, y)) && SoundPair(t, (y, x)) ==> Together(r.bijective, x, y))
    && Disjoint(r.bijective) && Unrelated(t, r.bijective)
    && ColumnOrdered(t.names, r.bijective) && HeadsEarliest(t, t.names, r.bijective)
    && HeadsInOrder(t.names, r.bijective)
  }

  /** `detect_column_relationships` (lines 142-223): see Detected. */
  method DetectColumnRelationships<A(==)>(t: Contents<A>) returns (r: Relationships)
    requires t.Valid()
    ensures Detected(t, r)
  {
    var independent, constant, unique := SortOutConstantsAndUniques(t);
    var remaining := independent;
    var all;
    all, independent := ClassifyRemainingPairs(t, remaining);
    IndependentMeaning(t, remaining, all, independent);
    var rest, pairs := ExtractBijectivePairs(all);
    BijectivePairsSound(t, remaining, all, pairs);
    PickedCouples(t, remaining, all, pairs);
    GroupsPartitionClasses(t, remaining, pairs);
    var groups := GroupBijectivePairs(t, pairs);
    MutualPairsGrouped(t, remaining, all, pairs, groups);
    var identifies := PruneIdentifications(rest, groups);
    PruneFilters(rest, groups, 0);
    InOrderThrough(independent, remaining, t.names);
    SurvivingPairsSound(t, remaining, all, rest, groups, identifies);
    r := Relationships(independent, constant, unique, identifies, groups);
    assert ClassesFound(t, r);
    assert IdentifiesFound(t, r);
    assert GroupsFound(t, r);
  }

  /** After the pairwise phase, Independent is exactly the candidates no
      other candidate identifies. */
  lemma IndependentMeaning<A>(t: Contents<A>, remaining: seq<string>, all: seq<Pair>, independent: seq<string>)
    requires t.Valid()
    requires forall c :: c in remaining ==> c in t.names
    requires forall c :: c in remaining <==> IsCandidate(t, c)
    requires PairwiseInvariant(t, remaining, all, independent)
    requires forall x :: x in remaining ==> RowCovered(t, remaining, all, x)
    ensures forall c :: c in independent ==> IsCandidate(t, c) && !IsDetermined(t, c)
    ensures forall c :: IsCandidate(t, c) && !IsDetermined(t, c) ==> c in independent
  {
    forall c | IsCandidate(t, c) && IsDetermined(t, c) ensures c in Targets(all) {
      var d :| SoundPair(t, (d, c));
      assert RowCovered(t, remaining, all, d);
      assert (d, c) in all;
    }
    forall c | IsCandidate(t, c) && c in Targets(all) ensures IsDetermined(t, c) {
      var p :| p in all && p.1 == c;
      assert SoundPair(t, (p.0, c));
    }
  }

  /** Both directions of every Bijective pair are sound identifications. */
  lemma BijectivePairsSound<A>(t: Contents<A>, remaining: seq<string>, all: seq<Pair>, pairs: seq<Pair>)
    requires t.Valid()
    requires forall c :: c in remaining ==> c in t.names
    requires forall c :: c in remaining <==> IsCandidate(t, c)
    requires forall p :: p in all ==> p.0 in remaining && p.1 in remaining && p.0 != p.1
    requires forall p :: p in all ==> t.CharacterizeColumnRelationship(p.0, p.1) == Identifies
    requires forall b :: b in pairs ==> b in all && Reverse(b) in all
    ensures forall b :: b in pairs ==> SoundPair(t, b) && SoundPair(t, Reverse(b))
  {
  }

  /** Any two mutually identifying candidates end up in one group. */
  lemma MutualPairsGrouped<A>(t: Contents<A>, remaining: seq<string>, all: seq<Pair>, pairs: seq<Pair>,
                              groups: seq<seq<string>>)
    requires t.Valid()
    requires forall c :: c in remaining ==> c in t.names
    requires forall c :: c in remaining <==> IsCandidate(t, c)
    requires forall x :: x in remaining ==> RowCovered(t, remaining, all, x)
    requires forall p :: p in all && Reverse(p) in all ==> p in pairs || Reverse(p) in pairs
    requires forall b :: b in pairs ==> Together(groups, b.0, b.1)
    ensures forall x, y :: SoundPair(t, (x, y)) && SoundPair(t, (y, x)) ==> Together(groups, x, y)
  {
    forall x, y | SoundPair(t, (x, y)) && SoundPair(t, (y, x)) ensures Together(groups, x, y) {
      assert RowCovered(t, remaining, all, x) && RowCovered(t, remaining, all, y);
      assert (x, y) in all && (y, x) in all;
      if (x, y) !in pairs {
        assert Reverse((x, y)) in pairs;
        assert Together(groups, y, x);
        var m :| 0 <= m < |groups| && y in groups[m] && x in groups[m];
      }
    }
  }

  /** The pairs that survive extraction and pruning are one-directional
      sound identifications, and a one-directional identification is lost
      only when its dependent is a non-first member of a group. */
  lemma SurvivingPairsSound<A>(t: Contents<A>, remaining: seq<string>, all: seq<Pair>, rest: seq<Pair>,
                               groups: seq<seq<string>>, identifies: seq<Pair>)
    requires t.Valid()
    requires forall c :: c in remaining ==> c in t.names
    requires forall c :: c in remaining <==> IsCandidate(t, c)
    requires forall p :: p in all ==> p.0 in remaining && p.1 in remaining && p.0 != p.1
    requires forall p :: p in all ==> t.CharacterizeColumnRelationship(p.0, p.1) == Identifies
    requires forall x :: x in remaining ==> RowCovered(t, remaining, all, x)
    requires AllDistinct(all)
    requires rest == Without(all, Mutual(all))
    requires AllDistinct(identifies)
    requires forall p :: p in identifies ==> p in rest
    requires forall p :: p in rest && p !in identifies ==> NonFirstMember(groups, p.1)
    ensures forall p :: p in identifies ==> OneWay(t, p)
    ensures forall x, y :: OneWay(t, (x, y)) && !NonFirstMember(groups, y) ==> (x, y) in identifies
  {
    forall p | p in identifies ensures OneWay(t, p) {
      assert p in all && Reverse(p) !in all;
      assert RowCovered(t, remaining, all, p.1);
    }
    forall x, y | OneWay(t, (x, y)) && !NonFirstMember(groups, y)
      ensures (x, y) in identifies
    {
      assert RowCovered(t, remaining, all, x);
      assert (x, y) in all;
      assert (x, y) !in Mutual(all);
    }
  }
}
