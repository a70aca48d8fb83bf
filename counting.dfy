/** Sequence primitives the table code relies on: distinct-value counts
    (pandas' `len(x.drop_duplicates())`), keep-first deduplication, and
    Python's `list.remove`, which removes the first occurrence. */
module Counting {

  /** No value occurs twice. */
  predicate AllDistinct<T(==)>(s: seq<T>) {
    forall i, j :: 0 <= i < j < |s| ==> s[i] != s[j]
  }

  function Elems<T(==)>(s: seq<T>): set<T> {
    set x | x in s
  }

  /** In a list without repeats, the j-th element is not among the first j. */
  lemma NotYetListed<T>(s: seq<T>, j: nat)
    requires AllDistinct(s) && j < |s|
    ensures s[j] !in Elems(s[..j])
  {
    forall l | 0 <= l < j ensures s[..j][l] != s[j] {
      assert s[..j][l] == s[l];
    }
  }

  /** The elements of a growing prefix. */
  lemma ElemsStep<T>(s: seq<T>, j: nat)
    requires j < |s|
    ensures Elems(s[..j + 1]) == Elems(s[..j]) + {s[j]}
    ensures j == 0 ==> Elems(s[..j]) == {}
  {
    assert s[..j + 1] == s[..j] + [s[j]];
  }

  /** Number of distinct values of a sequence. */
  function DistinctCount<T(==)>(s: seq<T>): nat {
    |Elems(s)|
  }

  function MapSeq<T, U>(f: T -> U, s: seq<T>): seq<U> {
    seq(|s|, i requires 0 <= i < |s| => f(s[i]))
  }

  /** f never sends two different values of s to the same image. */
  predicate InjectiveOn<T(==), U(==)>(f: T -> U, s: seq<T>) {
    forall x, y :: x in s && y in s && f(x) == f(y) ==> x == y
  }

  lemma DistinctCons<T>(a: T, t: seq<T>)
    requires a !in t
    ensures AllDistinct([a] + t) <==> AllDistinct(t)
  {
    var s := [a] + t;
    if AllDistinct(t) {
      forall i, j | 0 <= i < j < |s| ensures s[i] != s[j] {
        assert s[j] == t[j - 1];
        if i > 0 {
          assert s[i] == t[i - 1];
        }
      }
    }
    if AllDistinct(s) {
      forall i, j | 0 <= i < j < |t| ensures t[i] != t[j] {
        assert t[i] == s[i + 1] && t[j] == s[j + 1];
      }
    }
  }

  lemma DistinctTail<T>(s: seq<T>)
    requires |s| > 0 && AllDistinct(s)
    ensures s[0] !in s[1..] && AllDistinct(s[1..])
  {
    forall k | 0 <= k < |s| - 1 ensures s[1..][k] != s[0] {
      assert s[1..][k] == s[k + 1];
    }
    forall i, j | 0 <= i < j < |s| - 1 ensures s[1..][i] != s[1..][j] {
      assert s[1..][i] == s[i + 1] && s[1..][j] == s[j + 1];
    }
  }

  /** A sequence has at most as many distinct values as elements, and exactly
      as many when all of them differ. */
  lemma {:induction false} DistinctCountBound<T>(s: seq<T>)
    ensures DistinctCount(s) <= |s|
    ensures DistinctCount(s) == |s| <==> AllDistinct(s)
  {
    if s == [] {
      assert Elems(s) == {};
    } else {
      var t := s[1..];
      DistinctCountBound(t);
      assert s == [s[0]] + t;
      assert Elems(s) == {s[0]} + Elems(t);
      if s[0] in t {
        assert Elems(s) == Elems(t);
        var k :| 0 <= k < |t| && t[k] == s[0];
        assert s[k + 1] == s[0];
      } else {
        DistinctCons(s[0], t);
      }
    }
  }

  /** Mapping a sequence never creates distinct values, and keeps all of them
      exactly when the map is injective on the sequence's values. */
  lemma {:induction false} DistinctCountImage<T, U>(f: T -> U, s: seq<T>)
    ensures DistinctCount(MapSeq(f, s)) <= DistinctCount(s)
    ensures DistinctCount(MapSeq(f, s)) == DistinctCount(s) <==> InjectiveOn(f, s)
  {
    if s == [] {
      assert Elems(s) == {};
      assert Elems(MapSeq(f, s)) == {};
    } else {
      var a, t := s[0], s[1..];
      DistinctCountImage(f, t);
      assert s == [a] + t;
      ImageCons(f, a, t);
      if a in t {
        ImageRepeated(f, a, t);
      } else if f(a) in MapSeq(f, t) {
        ImageCollides(f, a, t);
      } else {
        ImageFresh(f, a, t);
      }
    }
  }

  lemma ImageCons<T, U>(f: T -> U, a: T, t: seq<T>)
    ensures MapSeq(f, [a] + t) == [f(a)] + MapSeq(f, t)
    ensures Elems([a] + t) == {a} + Elems(t)
    ensures Elems(MapSeq(f, [a] + t)) == {f(a)} + Elems(MapSeq(f, t))
  {
    assert MapSeq(f, [a] + t) == [f(a)] + MapSeq(f, t);
  }

  lemma ImageRepeated<T, U>(f: T -> U, a: T, t: seq<T>)
    requires a in t
    ensures Elems([a] + t) == Elems(t)
    ensures Elems(MapSeq(f, [a] + t)) == Elems(MapSeq(f, t))
    ensures InjectiveOn(f, [a] + t) <==> InjectiveOn(f, t)
  {
    ImageCons(f, a, t);
    var k :| 0 <= k < |t| && t[k] == a;
    assert MapSeq(f, t)[k] == f(a);
  }

  lemma InImage<T, U>(f: T -> U, t: seq<T>, x: T)
    requires x in t
    ensures f(x) in MapSeq(f, t)
  {
    var k :| 0 <= k < |t| && t[k] == x;
    assert MapSeq(f, t)[k] == f(x);
  }

  lemma ImageCollides<T, U>(f: T -> U, a: T, t: seq<T>)
    requires a !in t && f(a) in MapSeq(f, t)
    ensures |Elems([a] + t)| == |Elems(t)| + 1
    ensures Elems(MapSeq(f, [a] + t)) == Elems(MapSeq(f, t))
    ensures !InjectiveOn(f, [a] + t)
  {
    ImageCons(f, a, t);
    var k :| 0 <= k < |t| && MapSeq(f, t)[k] == f(a);
    assert t[k] in [a] + t && a in [a] + t;
  }

  lemma ImageFresh<T, U>(f: T -> U, a: T, t: seq<T>)
    requires a !in t && f(a) !in MapSeq(f, t)
    ensures |Elems([a] + t)| == |Elems(t)| + 1
    ensures |Elems(MapSeq(f, [a] + t))| == |Elems(MapSeq(f, t))| + 1
    ensures InjectiveOn(f, [a] + t) <==> InjectiveOn(f, t)
  {
    ImageCons(f, a, t);
    var s := [a] + t;
    if InjectiveOn(f, t) {
      forall x, y | x in s && y in s && f(x) == f(y) ensures x == y {
        if x in t { InImage(f, t, x); }
        if y in t { InImage(f, t, y); }
      }
    }
  }

  /** Python's `s.remove(v)`, where removing an absent value changes nothing. */
  function RemoveFirst<T(==)>(s: seq<T>, v: T): (r: seq<T>)
    ensures v !in s ==> r == s
    ensures v in s ==> |r| == |s| - 1
    ensures forall x :: x in r ==> x in s
    ensures forall x :: x in s && x != v ==> x in r
    ensures AllDistinct(s) ==> AllDistinct(r) && v !in r
  {
    if |s| == 0 then []
    else if s[0] == v then
      assert AllDistinct(s) ==> v !in s[1..] && AllDistinct(s[1..]) by {
        if AllDistinct(s) { DistinctTail(s); }
      }
      s[1..]
    else
      var rest := RemoveFirst(s[1..], v);
      assert s == [s[0]] + s[1..];
      assert AllDistinct(s) ==> AllDistinct([s[0]] + rest) by {
        if AllDistinct(s) {
          DistinctTail(s);
          DistinctCons(s[0], rest);
        }
      }
      [s[0]] + rest
  }

  /** Removing a value found at index i when no earlier element equals it
      cuts exactly that index out. */
  lemma {:induction false} RemoveFirstAt<T>(s: seq<T>, v: T, i: nat)
    requires i < |s| && s[i] == v && v !in s[..i]
    ensures RemoveFirst(s, v) == s[..i] + s[i + 1..]
  {
    if i > 0 {
      assert s[0] in s[..i];
      assert s[1..][..i - 1] == s[1..i];
      assert v !in s[1..][..i - 1];
      RemoveFirstAt(s[1..], v, i - 1);
      assert s[..i] == [s[0]] + s[1..][..i - 1];
      assert s[i + 1..] == s[1..][i..];
    }
  }

  /** The elements of s not in drop, in their original order. */
  function Without<T(==)>(s: seq<T>, drop: set<T>): (r: seq<T>)
    ensures forall x :: x in r ==> x in s && x !in drop
    ensures forall x :: x in s && x !in drop ==> x in r
    ensures |r| <= |s|
    ensures AllDistinct(s) ==> AllDistinct(r)
  {
    if |s| == 0 then []
    else
      var rest := Without(s[1..], drop);
      assert s == [s[0]] + s[1..];
      assert AllDistinct(s) ==> AllDistinct(s[1..]) && s[0] !in rest by {
        if AllDistinct(s) { DistinctTail(s); }
      }
      if s[0] in drop then rest
      else
        assert AllDistinct(s) ==> AllDistinct([s[0]] + rest) by {
          if AllDistinct(s) { DistinctCons(s[0], rest); }
        }
        [s[0]] + rest
  }

  /** On a sequence without repeats, removing one value is filtering it out. */
  lemma {:induction false} RemoveFirstIsWithout<T>(s: seq<T>, v: T)
    requires AllDistinct(s)
    ensures RemoveFirst(s, v) == Without(s, {v})
  {
    if |s| > 0 {
      assert s == [s[0]] + s[1..];
      DistinctTail(s);
      RemoveFirstIsWithout(s[1..], v);
      if s[0] == v {
        assert Without(s[1..], {v}) == s[1..] by { WithoutNothing(s[1..], {v}); }
      }
    }
  }

  lemma {:induction false} WithoutNothing<T>(s: seq<T>, drop: set<T>)
    requires forall x :: x in s ==> x !in drop
    ensures Without(s, drop) == s
  {
    if |s| > 0 {
      WithoutNothing(s[1..], drop);
      assert s == [s[0]] + s[1..];
    }
  }

  /** Filtering twice is filtering once by the union. */
  lemma {:induction false} WithoutWithout<T>(s: seq<T>, a: set<T>, b: set<T>)
    ensures Without(Without(s, a), b) == Without(s, a + b)
  {
    if |s| > 0 {
      WithoutWithout(s[1..], a, b);
    }
  }

  /** Filtering distributes over concatenation. */
  lemma {:induction false} WithoutConcat<T>(a: seq<T>, b: seq<T>, drop: set<T>)
    ensures Without(a + b, drop) == Without(a, drop) + Without(b, drop)
  {
    if |a| == 0 {
      assert a + b == b;
    } else {
      assert (a + b)[0] == a[0] && (a + b)[1..] == a[1..] + b;
      WithoutConcat(a[1..], b, drop);
    }
  }

  /** Filtering out a superset of the elements leaves nothing. */
  lemma {:induction false} WithoutCovered<T>(s: seq<T>, drop: set<T>)
    requires forall x :: x in s ==> x in drop
    ensures Without(s, drop) == []
  {
    if |s| > 0 {
      WithoutCovered(s[1..], drop);
    }
  }

  /** Filtering by two sets that agree on the elements of s gives the same result. */
  lemma {:induction false} WithoutSameOn<T>(s: seq<T>, a: set<T>, b: set<T>)
    requires forall x :: x in s ==> (x in a <==> x in b)
    ensures Without(s, a) == Without(s, b)
  {
    if |s| > 0 {
      WithoutSameOn(s[1..], a, b);
    }
  }

  /** Filtering out values that do not occur in the first i elements keeps
      those i elements in place. */
  lemma WithoutKeepsPrefix<T>(s: seq<T>, drop: set<T>, i: nat)
    requires i <= |s|
    requires forall k :: 0 <= k < i ==> s[k] !in drop
    ensures i <= |Without(s, drop)| && Without(s, drop)[..i] == s[..i]
  {
    var front, back := s[..i], s[i..];
    assert s == front + back;
    WithoutConcat(front, back, drop);
    forall x | x in front ensures x !in drop {
      var k :| 0 <= k < i && front[k] == x;
    }
    WithoutNothing(front, drop);
    var w := Without(back, drop);
    assert Without(s, drop) == front + w;
    assert (front + w)[..i] == front;
  }

  /** The position of the first occurrence of x in s. */
  function IndexOf<T(==)>(s: seq<T>, x: T): (i: nat)
    requires x in s
    ensures i < |s| && s[i] == x && x !in s[..i]
  {
    if s[0] == x then 0
    else
      var j := IndexOf(s[1..], x);
      assert s[..j + 1] == [s[0]] + s[1..][..j];
      j + 1
  }

  /** In a list without repeats, the k-th element sits at position k. */
  lemma IndexOfAt<T>(s: seq<T>, k: nat)
    requires AllDistinct(s) && k < |s|
    ensures IndexOf(s, s[k]) == k
  {
    var i := IndexOf(s, s[k]);
    assert s[i] == s[k];
  }

  /** Filtering keeps the relative order of what it keeps. */
  lemma IndexOfTail<T>(s: seq<T>, x: T)
    requires |s| > 0 && x in s[1..] && x != s[0]
    ensures IndexOf(s, x) == 1 + IndexOf(s[1..], x)
  {
  }

  lemma {:induction false} WithoutKeepsOrder<T>(s: seq<T>, drop: set<T>, a: nat, b: nat)
    requires AllDistinct(s) && a < b < |Without(s, drop)|
    ensures IndexOf(s, Without(s, drop)[a]) < IndexOf(s, Without(s, drop)[b])
  {
    var w := Without(s, drop);
    var rest := Without(s[1..], drop);
    DistinctTail(s);
    if s[0] in drop {
      assert w == rest;
      WithoutKeepsOrder(s[1..], drop, a, b);
      IndexOfTail(s, rest[a]);
      IndexOfTail(s, rest[b]);
    } else {
      assert w == [s[0]] + rest;
      assert w[b] == rest[b - 1];
      IndexOfTail(s, rest[b - 1]);
      if a > 0 {
        assert w[a] == rest[a - 1];
        WithoutKeepsOrder(s[1..], drop, a - 1, b - 1);
        IndexOfTail(s, rest[a - 1]);
      } else {
        assert w[a] == s[0] && IndexOf(s, s[0]) == 0;
      }
    }
  }



  /** x and y both occur in s, x first. */
  predicate ComesBefore<T(==)>(s: seq<T>, x: T, y: T) {
    x in s && y in s && IndexOf(s, x) < IndexOf(s, y)
  }

  /** Every element of s occurs in order, and s lists them in the same order. */
  predicate InOrderOf<T(==)>(s: seq<T>, order: seq<T>) {
    && (forall x :: x in s ==> x in order)
    && (forall a, b :: 0 <= a < b < |s| && s[a] in order && s[b] in order ==>
          IndexOf(order, s[a]) < IndexOf(order, s[b]))
  }

  lemma WithoutInOrder<T>(s: seq<T>, drop: set<T>)
    requires AllDistinct(s)
    ensures InOrderOf(Without(s, drop), s)
  {
    forall a, b | 0 <= a < b < |Without(s, drop)|
      ensures IndexOf(s, Without(s, drop)[a]) < IndexOf(s, Without(s, drop)[b])
    {
      WithoutKeepsOrder(s, drop, a, b);
    }
  }

  /** pandas' `drop_duplicates()` with `keep="first"`: every value once, at
      the position of its first occurrence. */
  function Dedup<T(==)>(s: seq<T>): (r: seq<T>)
    ensures forall x :: x in r ==> x in s
    ensures forall x :: x in s ==> x in r
    ensures AllDistinct(r)
    ensures |r| <= |s|
  {
    if |s| == 0 then []
    else
      var d := Dedup(s[..|s| - 1]);
      var last := s[|s| - 1];
      assert s == s[..|s| - 1] + [last];
      if last in d then d
      else
        assert AllDistinct(d + [last]) by {
          forall i, j | 0 <= i < j < |d| + 1 ensures (d + [last])[i] != (d + [last])[j] {
            if j == |d| {
              assert (d + [last])[i] == d[i];
            }
          }
        }
        d + [last]
  }

  /** The deduplicated sequence is as long as the number of distinct values. */
  lemma DedupLength<T>(s: seq<T>)
    ensures |Dedup(s)| == DistinctCount(s)
  {
    DistinctCountBound(Dedup(s));
    assert Elems(Dedup(s)) == Elems(s);
  }

  /** Keep-first order: a value of s keeps the place of its first occurrence,
      so values first seen earlier come earlier. */
  lemma {:induction false} DedupKeepsFirstOrder<T>(s: seq<T>, i: nat, j: nat)
    requires i < j < |s|
    requires s[i] != s[j] && s[i] !in s[..i] && s[j] !in s[..j]
    ensures exists p, q :: 0 <= p < q < |Dedup(s)| && Dedup(s)[p] == s[i] && Dedup(s)[q] == s[j]
  {
    var pre := s[..|s| - 1];
    var d := Dedup(pre);
    assert s == pre + [s[|s| - 1]];
    if j < |s| - 1 {
      assert pre[..i] == s[..i] && pre[..j] == s[..j];
      DedupKeepsFirstOrder(pre, i, j);
      var p, q :| 0 <= p < q < |d| && d[p] == s[i] && d[q] == s[j];
      assert Dedup(s)[p] == s[i] && Dedup(s)[q] == s[j];
    } else {
      assert s[j] !in pre by { assert pre == s[..j]; }
      assert s[i] in pre;
      var p :| 0 <= p < |d| && d[p] == s[i];
      assert Dedup(s) == d + [s[j]];
      assert Dedup(s)[p] == s[i] && Dedup(s)[|d|] == s[j];
    }
  }

  /** The values of xs that are not yet in acc, appended to acc in order
      (`if x not in acc: acc.append(x)` for each x of xs). */
  function AppendAbsent<T(==)>(acc: seq<T>, xs: seq<T>): (r: seq<T>)
    ensures |acc| <= |r| && r[..|acc|] == acc
    ensures forall x :: x in r ==> x in acc || x in xs
    ensures forall x :: x in acc ==> x in r
    ensures forall x :: x in xs ==> x in r
    ensures AllDistinct(acc) ==> AllDistinct(r)
    decreases |xs|
  {
    if |xs| == 0 then acc
    else if xs[0] in acc then AppendAbsent(acc, xs[1..])
    else
      assert AllDistinct(acc) ==> AllDistinct(acc + [xs[0]]) by {
        if AllDistinct(acc) {
          forall i, j | 0 <= i < j < |acc| + 1 ensures (acc + [xs[0]])[i] != (acc + [xs[0]])[j] {
            if j == |acc| { assert (acc + [xs[0]])[i] == acc[i]; }
          }
        }
      }
      var r := AppendAbsent(acc + [xs[0]], xs[1..]);
      assert r[..|acc|] == (acc + [xs[0]])[..|acc|];
      r
  }
}
