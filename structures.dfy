/** The small containers `break_into_subtables` builds: Python dictionaries
    from a column name to a list of column names (kept in insertion order),
    and `itertools.combinations`. */
module Structures {
  import opened Counting

  /** An insertion-ordered dictionary: `keys` in insertion order, `values`
      the mapping. */
  datatype Dict = Dict(keys: seq<string>, values: map<string, seq<string>>)

  /** The keys are listed once each and are exactly the mapped names. */
  ghost predicate Ordered(d: Dict) {
    && AllDistinct(d.keys)
    && (forall k :: k in d.keys ==> k in d.values)
    && (forall k :: k in d.values ==> k in d.keys)
  }

  const Empty: Dict := Dict([], map[])

  /** `d[k] = v`: an existing key keeps its place and gets the new value; a
      new key goes last. */
  function Put(d: Dict, k: string, v: seq<string>): (r: Dict)
    ensures Ordered(d) ==> Ordered(r)
    ensures k in r.values && r.values[k] == v
    ensures forall j :: j in d.values && j != k ==> j in r.values && r.values[j] == d.values[j]
    ensures forall j :: j in r.values ==> j in d.values || j == k
    ensures k in d.values ==> r.keys == d.keys
    ensures k !in d.values ==> r.keys == d.keys + [k]
  {
    if k in d.values then Dict(d.keys, d.values[k := v])
    else
      assert AllDistinct(d.keys) && k !in d.keys ==> AllDistinct(d.keys + [k]) by {
        if AllDistinct(d.keys) && k !in d.keys {
          forall i, j | 0 <= i < j < |d.keys| + 1 ensures (d.keys + [k])[i] != (d.keys + [k])[j] {
            if j == |d.keys| { assert (d.keys + [k])[i] == d.keys[i]; }
          }
        }
      }
      Dict(d.keys + [k], d.values[k := v])
  }

  /** `d.setdefault(k, []).append(v)` written as the source does: create an
      empty list for a new key, then append. */
  function AppendTo(d: Dict, k: string, v: string): (r: Dict)
    ensures Ordered(d) ==> Ordered(r)
    ensures k in r.values && r.values[k] == (if k in d.values then d.values[k] else []) + [v]
    ensures forall j :: j in d.values && j != k ==> j in r.values && r.values[j] == d.values[j]
    ensures forall j :: j in r.values ==> j in d.values || j == k
  {
    var d' := if k in d.values then d else Put(d, k, []);
    Put(d', k, d'.values[k] + [v])
  }

  /** All names listed as values. */
  function Dependents(d: Dict): set<string> {
    set k, c | k in d.values && c in d.values[k] :: c
  }

  /** x put in front of each of cs. */
  function Prefixed<T>(x: T, cs: seq<seq<T>>): (r: seq<seq<T>>)
    ensures |r| == |cs|
  {
    if |cs| == 0 then [] else [[x] + cs[0]] + Prefixed(x, cs[1..])
  }

  lemma {:induction false} PrefixedMember<T>(x: T, cs: seq<seq<T>>, c: seq<T>) returns (tail: seq<T>)
    requires c in Prefixed(x, cs)
    ensures tail in cs && c == [x] + tail
  {
    if c == [x] + cs[0] {
      tail := cs[0];
    } else {
      tail := PrefixedMember(x, cs[1..], c);
    }
  }

  /** `itertools.combinations(s, k)`: the k-element subsequences of s in
      lexicographic order of positions. */
  function Combinations<T>(s: seq<T>, k: nat): seq<seq<T>>
    decreases |s|
  {
    if k == 0 then [[]]
    else if |s| == 0 then []
    else Prefixed(s[0], Combinations(s[1..], k - 1)) + Combinations(s[1..], k)
  }

  /** The number of ways to choose k of n. */
  function Binomial(n: nat, k: nat): nat {
    if k == 0 then 1
    else if n == 0 then 0
    else Binomial(n - 1, k - 1) + Binomial(n - 1, k)
  }

  /** There are `n choose k` combinations. */
  lemma {:induction false} CombinationsCount<T>(s: seq<T>, k: nat)
    ensures |Combinations(s, k)| == Binomial(|s|, k)
    decreases |s|
  {
    if k > 0 && |s| > 0 {
      CombinationsCount(s[1..], k - 1);
      CombinationsCount(s[1..], k);
    }
  }

  /** A combination of k > 0 elements of s either starts with s[0], followed
      by a combination of k - 1 elements of the rest, or is a combination of
      k elements of the rest. */
  lemma CombinationSplit<T>(s: seq<T>, k: nat, c: seq<T>) returns (withFirst: bool, tail: seq<T>)
    requires k > 0 && c in Combinations(s, k)
    ensures |s| > 0
    ensures withFirst ==> tail in Combinations(s[1..], k - 1) && c == [s[0]] + tail
    ensures !withFirst ==> c in Combinations(s[1..], k)
  {
    var with := Combinations(s[1..], k - 1);
    assert Combinations(s, k) == Prefixed(s[0], with) + Combinations(s[1..], k);
    withFirst := c !in Combinations(s[1..], k);
    tail := c;
    if withFirst {
      tail := PrefixedMember(s[0], with, c);
    }
  }

  /** A value followed by distinct values drawn from a sequence that does
      not hold it repeats nothing. */
  lemma DistinctWithHead<T>(x: T, tail: seq<T>, rest: seq<T>)
    requires x !in rest && AllDistinct(tail)
    requires forall y :: y in tail ==> y in rest
    ensures AllDistinct([x] + tail)
  {
    DistinctCons(x, tail);
  }

  /** c picks k values of s at increasing positions. */
  ghost predicate Picks<T>(s: seq<T>, k: nat, c: seq<T>)
    decreases |s|
  {
    if k == 0 then c == []
    else
      && |s| > 0
      && ((|c| > 0 && c[0] == s[0] && Picks(s[1..], k - 1, c[1..])) || Picks(s[1..], k, c))
  }

  /** Every combination picks its values at increasing positions. */
  lemma {:induction false} CombinationPicks<T>(s: seq<T>, k: nat, c: seq<T>)
    requires c in Combinations(s, k)
    ensures Picks(s, k, c)
    decreases |s|
  {
    if k > 0 {
      var withFirst, tail := CombinationSplit(s, k, c);
      if withFirst {
        CombinationPicks(s[1..], k - 1, tail);
        assert c[1..] == tail;
      } else {
        CombinationPicks(s[1..], k, c);
      }
    }
  }

  /** Picking k values gives k values, all taken from s, and repeats
      nothing when s repeats nothing. */
  lemma {:induction false} PicksMembers<T>(s: seq<T>, k: nat, c: seq<T>)
    requires Picks(s, k, c)
    ensures |c| == k
    ensures forall x :: x in c ==> x in s
    ensures AllDistinct(s) ==> AllDistinct(c)
    decreases |s|
  {
    if k > 0 {
      var rest := s[1..];
      assert forall x :: x in rest ==> x in s;
      if |c| > 0 && c[0] == s[0] && Picks(rest, k - 1, c[1..]) {
        PicksMembers(rest, k - 1, c[1..]);
        assert c == [s[0]] + c[1..];
        if AllDistinct(s) {
          DistinctTail(s);
          DistinctWithHead(s[0], c[1..], rest);
        }
      } else {
        PicksMembers(rest, k, c);
        if AllDistinct(s) {
          DistinctTail(s);
        }
      }
    }
  }

  /** Each combination has k elements, all taken from s, and takes no
      position twice, so it repeats nothing when s repeats nothing. */
  lemma CombinationMembers<T>(s: seq<T>, k: nat, c: seq<T>)
    requires c in Combinations(s, k)
    ensures |c| == k
    ensures forall x :: x in c ==> x in s
    ensures AllDistinct(s) ==> AllDistinct(c)
  {
    CombinationPicks(s, k, c);
    PicksMembers(s, k, c);
  }
}
