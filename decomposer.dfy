/** `break_into_subtables`: rounds of increasing composite depth over a
    working copy of the table. Each round adds the composite columns of that
    depth, extracts every Bijective group and then every identification into
    a subtable of its own (keys plus dependents, duplicate rows dropped),
    drops the extracted dependents and the composites from the working copy,
    and records the key columns. */
module Decomposer {
  import opened Counting
  import opened Tables
  import opened Dependencies
  import opened Structures
  import Classifier

  /** A DataFrame as a value: its column names and its rows. */
  datatype Frame<A> = Frame(names: seq<string>, rows: seq<seq<Cell<A>>>)

  /** `rename({c: c + flag for c in keys})`. */
  function Flag(names: seq<string>, keys: seq<string>, flag: string): seq<string> {
    seq(|names|, i requires 0 <= i < |names| => if names[i] in keys then names[i] + flag else names[i])
  }

  /** The rows of the projection onto the listed columns, one per table row. */
  function Project<A>(cols: map<string, seq<Cell<A>>>, height: nat, headers: seq<string>): seq<seq<Cell<A>>>
    requires HasColumns(cols, headers, height)
  {
    seq(height, i requires 0 <= i < height =>
      seq(|headers|, k requires 0 <= k < |headers| => cols[headers[k]][i]))
  }

  /** Lines 59-63: the subtable for one determinant: the projection onto keys
      plus dependents, duplicate rows dropped keeping the first, and the key
      columns flagged. */
  function NewTable<A(==)>(cols: map<string, seq<Cell<A>>>, height: nat, keys: seq<string>,
                           dependents: seq<string>, flag: string): Frame<A>
    requires HasColumns(cols, keys + dependents, height)
  {
    var headers := keys + dependents;
    Frame(Flag(headers, keys, flag), Dedup(Project(cols, height, headers)))
  }

  /** A subtable holds each distinct projected row exactly once and nothing
      else, so it has no more rows than the table it was taken from. */
  lemma NewTableRows<A>(cols: map<string, seq<Cell<A>>>, height: nat, keys: seq<string>,
                        dependents: seq<string>, flag: string)
    requires HasColumns(cols, keys + dependents, height)
    ensures var f := NewTable(cols, height, keys, dependents, flag);
            && AllDistinct(f.rows) && |f.rows| <= height
            && |f.names| == |keys| + |dependents|
            && (forall i :: 0 <= i < height ==> Project(cols, height, keys + dependents)[i] in f.rows)
            && (forall row :: row in f.rows ==>
                  exists i :: 0 <= i < height && row == Project(cols, height, keys + dependents)[i])
  {
    var p := Project(cols, height, keys + dependents);
    assert forall row :: row in p ==> exists i :: 0 <= i < height && row == p[i];
    assert forall i :: 0 <= i < height ==> p[i] in p;
  }

  /** Rows that agree on the keys agree on the dependents: the keys
      determine the dependents. */
  ghost predicate KeysDetermine<A>(cols: map<string, seq<Cell<A>>>, height: nat, keys: seq<string>,
                                   dependents: seq<string>)
    requires HasColumns(cols, keys + dependents, height)
  {
    forall i, j :: 0 <= i < height && 0 <= j < height && AgreeOn(cols, keys, i, j) ==> AgreeOn(cols, dependents, i, j)
  }

  /** Row i of the table survives in the subtable f over keys and
      dependents: f has distinct rows, one of them is row i's projection
      onto keys then dependents, and it is the only row of f that starts
      with row i's keys. */
  ghost predicate RowKept<A>(f: Frame<A>, cols: map<string, seq<Cell<A>>>, height: nat, keys: seq<string>,
                             dependents: seq<string>, i: nat)
    requires HasColumns(cols, keys + dependents, height) && i < height
  {
    var row, key := Project(cols, height, keys + dependents)[i], Project(cols, height, keys)[i];
    && AllDistinct(f.rows)
    && (exists j :: 0 <= j < |f.rows| && f.rows[j] == row)
    && (forall j :: 0 <= j < |f.rows| ==> (|f.rows[j]| >= |keys| && f.rows[j][..|keys|] == key <==> f.rows[j] == row))
  }

  /** A subtable whose keys determine its dependents loses no row of the
      table it was taken from: every row can be looked up by its keys. */
  lemma SubtableLossless<A>(cols: map<string, seq<Cell<A>>>, height: nat, keys: seq<string>,
                            dependents: seq<string>, flag: string, i: nat)
    requires HasColumns(cols, keys + dependents, height) && KeysDetermine(cols, height, keys, dependents)
    requires i < height
    ensures RowKept(NewTable(cols, height, keys, dependents, flag), cols, height, keys, dependents, i)
  {
    NewTableRows(cols, height, keys, dependents, flag);
    var f := NewTable(cols, height, keys, dependents, flag);
    var headers := keys + dependents;
    var p, key := Project(cols, height, headers), Project(cols, height, keys);
    assert p[i][..|keys|] == key[i];
    forall j | 0 <= j < |f.rows| && |f.rows[j]| >= |keys| && f.rows[j][..|keys|] == key[i]
      ensures f.rows[j] == p[i]
    {
      assert f.rows[j] in f.rows;
      var r :| 0 <= r < height && f.rows[j] == p[r];
      assert AgreeOn(cols, keys, r, i) by {
        forall c | c in keys ensures cols[c][r] == cols[c][i] {
          var k :| 0 <= k < |keys| && keys[k] == c;
          assert p[r][..|keys|][k] == key[i][k];
        }
      }
      forall k | 0 <= k < |headers| ensures p[r][k] == p[i][k] {
        if k >= |keys| {
          assert headers[k] in dependents;
        }
      }
    }
  }

  /** Lines 53-56: a composite determinant stands for its component columns;
      any other determinant is its own key. */
  function KeysFor(key: string, composites: Dict): seq<string> {
    if key in composites.values then composites.values[key] else [key]
  }

  /** Line 85: the pair only restates what a composite column already says:
      x is a composite and y one of its components, or y is a composite. */
  predicate Redundant(p: Pair, composites: Dict) {
    (p.0 in composites.values && p.1 in composites.values[p.0]) || p.1 in composites.values
  }

  /** The pairs of ps that are redundant given the composites. */
  function RedundantPairs(ps: seq<Pair>, composites: Dict): set<Pair> {
    set p | p in ps && Redundant(p, composites)
  }

  /** `remove_composite_redundancy` (lines 79-88): at depth 1 the list is
      untouched; at a greater depth every redundant pair is removed and the
      others stay in order. */
  method RemoveCompositeRedundancy(identifies: seq<Pair>, composites: Dict, depth: int) returns (r: seq<Pair>)
    ensures depth <= 1 ==> r == identifies
    ensures depth > 1 ==> r == Without(identifies, RedundantPairs(identifies, composites))
    ensures depth > 1 ==> forall p :: p in r ==> p in identifies && !Redundant(p, composites)
    ensures depth > 1 ==> forall p :: p in identifies && !Redundant(p, composites) ==> p in r
  {
    r := identifies;
    if depth > 1 {
      var drop := RedundantPairs(identifies, composites);
      var i := 0;
      while i < |r|
        invariant 0 <= i <= |r|
        invariant Without(r, drop) == Without(identifies, drop)
        invariant forall p :: p in r ==> p in identifies
        invariant forall k :: 0 <= k < i ==> !Redundant(r[k], composites)
        decreases |r| - i
      {
        var pair := r[i];
        if Redundant(pair, composites) {
          RedundancyStep(identifies, composites, r, i);
          r := RemoveFirst(r, pair);
        } else {
          CleanPrefixStep(r, composites, i);
          i := i + 1;
        }
      }
      WithoutNothing(r, drop);
      assert forall p :: p in identifies ==> (p in drop <==> Redundant(p, composites));
    }
  }

  lemma CleanPrefixStep(r: seq<Pair>, composites: Dict, i: nat)
    requires i < |r| && !Redundant(r[i], composites)
    requires forall k :: 0 <= k < i ==> !Redundant(r[k], composites)
    ensures forall k :: 0 <= k < i + 1 ==> !Redundant(r[k], composites)
  {
  }

  /** One removal of the redundancy loop keeps its facts. */
  lemma RedundancyStep(identifies: seq<Pair>, composites: Dict, r: seq<Pair>, i: nat)
    requires i < |r| && Redundant(r[i], composites)
    requires forall k :: 0 <= k < i ==> !Redundant(r[k], composites)
    requires forall p :: p in r ==> p in identifies
    ensures var r' := RemoveFirst(r, r[i]);
            && r' == r[..i] + r[i + 1..]
            && Without(r', RedundantPairs(identifies, composites)) == Without(r, RedundantPairs(identifies, composites))
            && (forall p :: p in r' ==> p in identifies)
            && (forall k :: 0 <= k < i ==> !Redundant(r'[k], composites))
  {
    assert r[i] !in r[..i];
    assert r[i] in identifies;
    RemoveFirstAt(r, r[i], i);
    WithoutSkip(r, i, RedundantPairs(identifies, composites));
  }

  /** Removing an element that the filter drops anyway does not change the
      filtered sequence. */
  lemma WithoutSkip<T>(s: seq<T>, i: nat, drop: set<T>)
    requires i < |s| && s[i] in drop
    ensures Without(s[..i] + s[i + 1..], drop) == Without(s, drop)
  {
    assert s == s[..i] + ([s[i]] + s[i + 1..]);
    WithoutConcat(s[..i], [s[i]] + s[i + 1..], drop);
    WithoutConcat([s[i]], s[i + 1..], drop);
    WithoutConcat(s[..i], s[i + 1..], drop);
    assert Without([s[i]], drop) == [];
  }

  /** `mark_constants_and_uniques` (lines 73-77): the round's Constant and
      Unique columns not yet recorded are appended, in order. */
  method MarkConstantsAndUniques(constants: seq<string>, uniques: seq<string>, r: Relationships)
    returns (constants': seq<string>, uniques': seq<string>)
    ensures constants' == AppendAbsent(constants, r.constant)
    ensures uniques' == AppendAbsent(uniques, r.unique)
  {
    constants' := AppendAll(constants, r.constant);
    uniques' := AppendAll(uniques, r.unique);
  }

  /** One of the two loops of `mark_constants_and_uniques`. */
  method AppendAll(acc: seq<string>, xs: seq<string>) returns (r: seq<string>)
    ensures r == AppendAbsent(acc, xs)
  {
    r := acc;
    var k := 0;
    while k < |xs|
      invariant 0 <= k <= |xs|
      invariant AppendAbsent(r, xs[k..]) == AppendAbsent(acc, xs)
    {
      assert xs[k..][1..] == xs[k + 1..];
      if xs[k] !in r {
        r := r + [xs[k]];
      }
      k := k + 1;
    }
  }

  /** Lines 110-112 as a fold: each group's first member becomes a key whose
      dependents are the other members (a repeated key keeps its place and
      takes the later members). */
  function BijectiveStructure(groups: seq<seq<string>>): (d: Dict)
    requires forall g :: g in groups ==> |g| > 0
    ensures Ordered(d)
  {
    if |groups| == 0 then Empty
    else
      var init := groups[..|groups| - 1];
      var g := groups[|groups| - 1];
      assert forall h :: h in init ==> h in groups;
      Put(BijectiveStructure(init), g[0], g[1..])
  }

  /** The first member of each group, in order. */
  function Firsts(groups: seq<seq<string>>): (r: seq<string>)
    requires forall g :: g in groups ==> |g| > 0
    ensures |r| == |groups|
    ensures forall i :: 0 <= i < |groups| ==> r[i] == groups[i][0]
  {
    if |groups| == 0 then []
    else
      var init := groups[..|groups| - 1];
      assert forall h :: h in init ==> h in groups;
      Firsts(init) + [groups[|groups| - 1][0]]
  }

  /** The keys of the bijective structure are the groups' first members,
      each once, in the order they first appear. */
  lemma {:induction false} BijectiveStructureKeys(groups: seq<seq<string>>)
    requires forall g :: g in groups ==> |g| > 0
    ensures BijectiveStructure(groups).keys == Dedup(Firsts(groups))
  {
    if |groups| > 0 {
      var init := groups[..|groups| - 1];
      assert forall h :: h in init ==> h in groups;
      BijectiveStructureKeys(init);
      assert Firsts(groups)[..|groups| - 1] == Firsts(init);
    }
  }

  /** A key's dependents are the other members of the last group that
      starts with it. */
  lemma {:induction false} BijectiveStructureValues(groups: seq<seq<string>>, i: nat)
    requires forall g :: g in groups ==> |g| > 0
    requires i < |groups|
    requires forall j :: i < j < |groups| ==> groups[j][0] != groups[i][0]
    ensures groups[i][0] in BijectiveStructure(groups).values
    ensures BijectiveStructure(groups).values[groups[i][0]] == groups[i][1..]
  {
    var init := groups[..|groups| - 1];
    assert forall h :: h in init ==> h in groups;
    if i < |groups| - 1 {
      BijectiveStructureValues(init, i);
    }
  }

  /** Lines 109-112. */
  method BuildBijectiveStructure(groups: seq<seq<string>>) returns (d: Dict)
    requires forall g :: g in groups ==> |g| > 0
    ensures d == BijectiveStructure(groups)
  {
    d := Empty;
    var n := 0;
    while n < |groups|
      invariant 0 <= n <= |groups|
      invariant forall g :: g in groups[..n] ==> g in groups
      invariant d == BijectiveStructure(groups[..n])
    {
      var g := groups[n];
      assert groups[..n + 1][..n] == groups[..n];
      d := Put(d, g[0], g[1..]);
      n := n + 1;
    }
    assert groups[..n] == groups;
  }

  /** Lines 119-126 as a fold: a pair (x, y) is recorded under x unless x
      has already been recorded as a dependent; the guard looks at x, so the
      same dependent can be recorded under several determinants. The second
      component is the list of recorded dependents. */
  function IdentificationStructure(ps: seq<Pair>): (r: (Dict, seq<string>))
    ensures Ordered(r.0)
  {
    if |ps| == 0 then (Empty, [])
    else
      var prev := IdentificationStructure(ps[..|ps| - 1]);
      var p := ps[|ps| - 1];
      if p.0 in prev.1 then prev else (AppendTo(prev.0, p.0, p.1), prev.1 + [p.1])
  }

  /** Lines 119-127. */
  method BuildIdentificationStructure(ps: seq<Pair>) returns (d: Dict)
    ensures d == IdentificationStructure(ps).0
  {
    d := Empty;
    var dependentCols: seq<string> := [];
    var n := 0;
    while n < |ps|
      invariant 0 <= n <= |ps|
      invariant (d, dependentCols) == IdentificationStructure(ps[..n])
    {
      var (x, y) := ps[n];
      assert ps[..n + 1][..n] == ps[..n];
      if x !in dependentCols {
        d := AppendTo(d, x, y);
        dependentCols := dependentCols + [y];
      }
      n := n + 1;
    }
    assert ps[..n] == ps;
  }

  /** Every recorded (determinant, dependent) comes from a listed pair. */
  lemma {:induction false} IdentificationStructureSound(ps: seq<Pair>)
    ensures var d := IdentificationStructure(ps).0;
            forall x, y :: x in d.values && y in d.values[x] ==> (x, y) in ps
  {
    if |ps| > 0 {
      var init := ps[..|ps| - 1];
      var last := ps[|ps| - 1];
      IdentificationStructureSound(init);
      assert ps == init + [last];
      var prev := IdentificationStructure(init).0;
      var d := IdentificationStructure(ps).0;
      forall x, y | x in d.values && y in d.values[x] ensures (x, y) in ps {
        if last.0 in IdentificationStructure(init).1 || x != last.0 {
          assert x in prev.values && y in prev.values[x];
          assert (x, y) in init;
        } else if y != last.1 {
          assert x in prev.values && y in prev.values[x];
          assert (x, y) in init;
        }
      }
    }
  }

  /** Every recorded dependent is the dependent of some listed pair. */
  lemma {:induction false} IdentificationDependents(ps: seq<Pair>)
    ensures forall y :: y in IdentificationStructure(ps).1 ==> y in Targets(ps)
  {
    if |ps| > 0 {
      var init := ps[..|ps| - 1];
      IdentificationDependents(init);
      assert ps == init + [ps[|ps| - 1]];
      assert forall p :: p in init ==> p in ps;
    }
  }

  /** Every listed pair whose determinant is never a dependent is
      recorded. */
  lemma {:induction false} IdentificationStructureComplete(ps: seq<Pair>)
    ensures var d := IdentificationStructure(ps).0;
            forall p :: p in ps && p.0 !in Targets(ps) ==> p.0 in d.values && p.1 in d.values[p.0]
  {
    if |ps| > 0 {
      var init := ps[..|ps| - 1];
      var last := ps[|ps| - 1];
      IdentificationStructureComplete(init);
      IdentificationDependents(init);
      assert ps == init + [last];
      assert forall p :: p in init ==> p in ps;
      assert Targets(init) <= Targets(ps);
      var prev := IdentificationStructure(init);
      var d := IdentificationStructure(ps).0;
      forall p | p in ps && p.0 !in Targets(ps) ensures p.0 in d.values && p.1 in d.values[p.0] {
        if p in init {
          assert p.0 in prev.0.values && p.1 in prev.0.values[p.0];
        }
      }
    }
  }

  /** The guard at line 122 looks at the determinant: of (a, c) and (b, c),
      both are recorded, so c is extracted under two determinants. */
  lemma DependentUnderTwoDeterminants()
    ensures IdentificationStructure([("a", "c"), ("b", "c")]).0.values == map["a" := ["c"], "b" := ["c"]]
  {
    var ps := [("a", "c"), ("b", "c")];
    assert ps[..|ps| - 1] == [("a", "c")];
    FirstPairRecorded();
    assert "b" != "c" by { assert "b"[0] != "c"[0]; }
    assert IdentificationStructure(ps).0 == AppendTo(AppendTo(Empty, "a", "c"), "b", "c");
    assert "a" != "b" by { assert "a"[0] != "b"[0]; }
    TwoDeterminantsMap("a", "b", "c");
  }

  lemma FirstPairRecorded()
    ensures IdentificationStructure([("a", "c")]) == (AppendTo(Empty, "a", "c"), ["c"])
  {
    var first: seq<Pair> := [("a", "c")];
    assert first[..|first| - 1] == [];
    assert IdentificationStructure([]) == (Empty, []);
    assert [] + ["c"] == ["c"];
  }

  lemma TwoDeterminantsMap(a: string, b: string, c: string)
    requires a != b
    ensures AppendTo(AppendTo(Empty, a, c), b, c).values == map[a := [c], b := [c]]
  {
    var d0 := Put(Empty, a, []);
    assert d0.values == map[a := []];
    var d1 := Put(d0, a, [c]);
    assert AppendTo(Empty, a, c) == d1 by {
      assert [] + [c] == [c];
    }
    assert d1.values == map[a := [c]];
    assert b !in d1.values;
    var d2 := Put(d1, b, []);
    assert AppendTo(d1, b, c) == Put(d2, b, [c]) by {
      assert [] + [c] == [c];
    }
    assert Put(d2, b, [c]).values == map[a := [c], b := [c]];
  }

  /** The output of the decomposition other than the working table: the
      extracted subtables, their key lists (the schema entries after the
      first), every key column in extraction order, and the Constant and
      Unique columns seen so far. */
  datatype Progress<A> = Progress(subtables: seq<Frame<A>>, keyLists: seq<seq<string>>,
                                  foreignKeys: seq<string>, constants: seq<string>, uniques: seq<string>)

  /** The lists one after the other. */
  function Concat(ls: seq<seq<string>>): seq<string> {
    if |ls| == 0 then [] else Concat(ls[..|ls| - 1]) + ls[|ls| - 1]
  }

  lemma ConcatAppend(ls: seq<seq<string>>, l: seq<string>)
    ensures Concat(ls + [l]) == Concat(ls) + l
  {
    assert (ls + [l])[..|ls|] == ls;
  }

  /** What holds of the output throughout: one key list per subtable, the
      key columns are the key lists in order, and every subtable has
      distinct rows, no more than the working table. */
  ghost predicate Consistent<A>(p: Progress<A>, height: nat) {
    && |p.subtables| == |p.keyLists|
    && p.foreignKeys == Concat(p.keyLists)
    && (forall f :: f in p.subtables ==> AllDistinct(f.rows) && |f.rows| <= height)
  }

  /** The headers of the subtable for the n-th entry of a column structure:
      its keys, then its dependents. */
  function Headers(structure: Dict, composites: Dict, n: nat): seq<string>
    requires Ordered(structure) && n < |structure.keys|
  {
    KeysFor(structure.keys[n], composites) + structure.values[structure.keys[n]]
  }

  /** The headers of the first n entries are columns of the table. */
  ghost predicate HeadersPresent(structure: Dict, composites: Dict, names: set<string>, n: nat)
    requires Ordered(structure) && n <= |structure.keys|
  {
    forall i, c :: 0 <= i < n && c in Headers(structure, composites, i) ==> c in names
  }

  /** The key lists of the first n entries of a column structure. */
  function KeyLists(structure: Dict, composites: Dict, n: nat): seq<seq<string>>
    requires n <= |structure.keys|
  {
    seq(n, i requires 0 <= i < n => KeysFor(structure.keys[i], composites))
  }

  /** The subtables for the first n entries of a column structure. */
  function NewTables<A(==)>(cols: map<string, seq<Cell<A>>>, height: nat, structure: Dict, composites: Dict,
                            flag: string, n: nat): seq<Frame<A>>
    requires Ordered(structure) && n <= |structure.keys|
    requires forall c :: c in cols ==> |cols[c]| == height
    requires HeadersPresent(structure, composites, cols.Keys, n)
  {
    seq(n, i requires 0 <= i < n => NewTableAt(cols, height, structure, composites, flag, i))
  }

  /** The subtable for the i-th entry of a column structure. */
  function NewTableAt<A(==)>(cols: map<string, seq<Cell<A>>>, height: nat, structure: Dict, composites: Dict,
                             flag: string, i: nat): Frame<A>
    requires Ordered(structure) && i < |structure.keys|
    requires forall c :: c in cols ==> |cols[c]| == height
    requires forall c :: c in Headers(structure, composites, i) ==> c in cols
  {
    NewTable(cols, height, KeysFor(structure.keys[i], composites), structure.values[structure.keys[i]], flag)
  }

  /** The first listed name that is not a column, if any. */
  function FirstMissing(headers: seq<string>, names: seq<string>): (r: Option<string>)
    ensures r.None? <==> forall c :: c in headers ==> c in names
    ensures r.Some? ==> r.value in headers && r.value !in names
  {
    if |headers| == 0 then None
    else if headers[0] !in names then Some(headers[0])
    else
      assert forall c :: c in headers ==> c == headers[0] || c in headers[1..];
      FirstMissing(headers[1..], names)
  }

  /** Lines 51-65: one subtable per entry of the column structure, in order;
      the first header that is not a column raises KeyError. */
  method CreateSubtables<A(==)>(working: Table<A>, structure: Dict, composites: Dict, keyFlag: string,
                                p: Progress<A>) returns (res: Result<Progress<A>>)
    requires working.Valid() && Ordered(structure)
    requires Consistent(p, working.height)
    ensures res.KeyError? ==> !HeadersPresent(structure, composites, working.cols.Keys, |structure.keys|)
    ensures res.KeyError? ==> res.column !in working.names
    ensures res.Ok? ==> HeadersPresent(structure, composites, working.cols.Keys, |structure.keys|)
    ensures res.Ok? ==>
              && res.value == Extended(p, working.cols, working.height, structure, composites, keyFlag,
                                       |structure.keys|)
              && Consistent(res.value, working.height)
  {
    var q := p;
    var n := 0;
    while n < |structure.keys|
      invariant 0 <= n <= |structure.keys|
      invariant HeadersPresent(structure, composites, working.cols.Keys, n)
      invariant q == Extended(p, working.cols, working.height, structure, composites, keyFlag, n)
    {
      var key := structure.keys[n];
      var dependents := structure.values[key];
      var keys := KeysFor(key, composites);
      var foreignKeys := q.foreignKeys + keys;
      var headers := keys + dependents;
      assert headers == Headers(structure, composites, n);
      var missing := FirstMissing(headers, working.names);
      if missing.Some? {
        return KeyError(missing.value);
      }
      assert forall c :: c in Headers(structure, composites, n) ==> c in working.cols;
      ExtendedStep(p, working.cols, working.height, structure, composites, keyFlag, n);
      q := q.(subtables := q.subtables + [NewTable(working.cols, working.height, keys, dependents, keyFlag)],
              keyLists := q.keyLists + [keys],
              foreignKeys := foreignKeys);
      n := n + 1;
    }
    ExtendedConsistent(p, working.cols, working.height, structure, composites, keyFlag);
    res := Ok(q);
  }

  /** The output after the subtables of the first n entries of a column
      structure are added. */
  function Extended<A(==)>(p: Progress<A>, cols: map<string, seq<Cell<A>>>, height: nat, structure: Dict,
                           composites: Dict, flag: string, n: nat): Progress<A>
    requires Ordered(structure) && n <= |structure.keys|
    requires forall c :: c in cols ==> |cols[c]| == height
    requires HeadersPresent(structure, composites, cols.Keys, n)
  {
    p.(subtables := p.subtables + NewTables(cols, height, structure, composites, flag, n),
       keyLists := p.keyLists + KeyLists(structure, composites, n),
       foreignKeys := p.foreignKeys + Concat(KeyLists(structure, composites, n)))
  }

  /** One more entry adds one subtable, one key list and its key columns. */
  lemma ExtendedStep<A>(p: Progress<A>, cols: map<string, seq<Cell<A>>>, height: nat, structure: Dict,
                        composites: Dict, flag: string, n: nat)
    requires Ordered(structure) && n < |structure.keys|
    requires forall c :: c in cols ==> |cols[c]| == height
    requires HeadersPresent(structure, composites, cols.Keys, n)
    requires forall c :: c in Headers(structure, composites, n) ==> c in cols
    ensures HeadersPresent(structure, composites, cols.Keys, n + 1)
    ensures var q := Extended(p, cols, height, structure, composites, flag, n);
            var keys := KeysFor(structure.keys[n], composites);
            Extended(p, cols, height, structure, composites, flag, n + 1)
            == q.(subtables := q.subtables + [NewTable(cols, height, keys, structure.values[structure.keys[n]], flag)],
                  keyLists := q.keyLists + [keys],
                  foreignKeys := q.foreignKeys + keys)
  {
    var keys := KeysFor(structure.keys[n], composites);
    HeadersPresentStep(structure, composites, cols.Keys, n);
    KeyListsStep(structure, composites, n);
    ConcatAppend(KeyLists(structure, composites, n), keys);
    NewTablesStep(cols, height, structure, composites, flag, n);
  }

  lemma HeadersPresentStep(structure: Dict, composites: Dict, names: set<string>, n: nat)
    requires Ordered(structure) && n < |structure.keys|
    requires HeadersPresent(structure, composites, names, n)
    requires forall c :: c in Headers(structure, composites, n) ==> c in names
    ensures HeadersPresent(structure, composites, names, n + 1)
  {
  }

  lemma KeyListsStep(structure: Dict, composites: Dict, n: nat)
    requires n < |structure.keys|
    ensures KeyLists(structure, composites, n + 1)
         == KeyLists(structure, composites, n) + [KeysFor(structure.keys[n], composites)]
  {
  }

  lemma NewTablesStep<A>(cols: map<string, seq<Cell<A>>>, height: nat, structure: Dict, composites: Dict,
                         flag: string, n: nat)
    requires Ordered(structure) && n < |structure.keys|
    requires forall c :: c in cols ==> |cols[c]| == height
    requires HeadersPresent(structure, composites, cols.Keys, n + 1)
    ensures NewTables(cols, height, structure, composites, flag, n + 1)
         == NewTables(cols, height, structure, composites, flag, n) + [NewTableAt(cols, height, structure, composites, flag, n)]
  {
  }

  /** Adding the subtables of a column structure keeps the output
      consistent. */
  lemma ExtendedConsistent<A>(p: Progress<A>, cols: map<string, seq<Cell<A>>>, height: nat, structure: Dict,
                              composites: Dict, flag: string)
    requires Ordered(structure)
    requires forall c :: c in cols ==> |cols[c]| == height
    requires HeadersPresent(structure, composites, cols.Keys, |structure.keys|)
    requires Consistent(p, height)
    ensures Consistent(Extended(p, cols, height, structure, composites, flag, |structure.keys|), height)
  {
    var n := |structure.keys|;
    var q := Extended(p, cols, height, structure, composites, flag, n);
    ConcatSplit(p.keyLists, KeyLists(structure, composites, n));
    var tables := NewTables(cols, height, structure, composites, flag, n);
    forall f | f in q.subtables ensures AllDistinct(f.rows) && |f.rows| <= height {
      if f !in p.subtables {
        var i :| 0 <= i < n && f == tables[i];
        assert forall c :: c in Headers(structure, composites, i) ==> c in cols;
        NewTableRows(cols, height, KeysFor(structure.keys[i], composites), structure.values[structure.keys[i]], flag);
      }
    }
  }

  lemma {:induction false} ConcatSplit(a: seq<seq<string>>, b: seq<seq<string>>)
    ensures Concat(a + b) == Concat(a) + Concat(b)
    decreases |b|
  {
    if |b| == 0 {
      assert a + b == a;
    } else {
      var b', last := b[..|b| - 1], b[|b| - 1];
      ConcatSplit(a, b');
      calc {
        Concat(a + b);
        { assert a + b == (a + b') + [last]; ConcatAppend(a + b', last); }
        Concat(a + b') + last;
        (Concat(a) + Concat(b')) + last;
        Concat(a) + (Concat(b') + last);
        { assert b == b' + [last]; ConcatAppend(b', last); }
        Concat(a) + Concat(b);
      }
    }
  }

  /** The dependents of the first n entries of a column structure. */
  function DependentsUpTo(structure: Dict, n: nat): set<string>
    requires Ordered(structure) && n <= |structure.keys|
  {
    if n == 0 then {}
    else DependentsUpTo(structure, n - 1) + Elems(structure.values[structure.keys[n - 1]])
  }

  lemma {:induction false} DependentsUpToMembers(structure: Dict, n: nat, c: string)
    requires Ordered(structure) && n <= |structure.keys|
    ensures c in DependentsUpTo(structure, n) <==> exists i :: 0 <= i < n && c in structure.values[structure.keys[i]]
  {
    if n > 0 {
      DependentsUpToMembers(structure, n - 1, c);
    }
  }

  lemma DependentsUpToAll(structure: Dict)
    requires Ordered(structure)
    ensures DependentsUpTo(structure, |structure.keys|) == Dependents(structure)
  {
    forall c ensures c in DependentsUpTo(structure, |structure.keys|) <==> c in Dependents(structure) {
      DependentsUpToMembers(structure, |structure.keys|, c);
      if c in Dependents(structure) {
        var k :| k in structure.values && c in structure.values[k];
        var i :| 0 <= i < |structure.keys| && structure.keys[i] == k;
      }
    }
  }

  /** Dropping one more name from the columns, whether or not it is still
      there, is filtering by one more name. */
  lemma DropStep<A>(names0: seq<string>, cols0: map<string, seq<Cell<A>>>, dropped: set<string>, col: string)
    ensures Without(Without(names0, dropped), {col}) == Without(names0, dropped + {col})
    ensures (cols0 - dropped) - {col} == cols0 - (dropped + {col})
    ensures col !in Without(names0, dropped) ==> Without(names0, dropped + {col}) == Without(names0, dropped)
    ensures col !in (cols0 - dropped) ==> cols0 - (dropped + {col}) == cols0 - dropped
  {
    DropStepNames(names0, dropped, col);
    DropStepCols(cols0, dropped, col);
  }

  lemma DropStepNames(names0: seq<string>, dropped: set<string>, col: string)
    ensures Without(Without(names0, dropped), {col}) == Without(names0, dropped + {col})
    ensures col !in Without(names0, dropped) ==> Without(names0, dropped + {col}) == Without(names0, dropped)
  {
    var kept := Without(names0, dropped);
    WithoutWithout(names0, dropped, {col});
    if col !in kept {
      WithoutNothing(kept, {col});
    }
  }

  lemma DropStepCols<A>(cols0: map<string, seq<Cell<A>>>, dropped: set<string>, col: string)
    ensures (cols0 - dropped) - {col} == cols0 - (dropped + {col})
    ensures col !in (cols0 - dropped) ==> cols0 - (dropped + {col}) == cols0 - dropped
  {
  }

  /** Line 70-71 for one list of dependents: each one still present is
      dropped, the others are passed over. */
  method DropColumns<A(==)>(working: Table<A>, dependents: seq<string>)
    requires working.Valid()
    modifies working
    ensures working.Valid() && working.height == old(working.height)
    ensures working.names == Without(old(working.names), Elems(dependents))
    ensures working.cols == old(working.cols) - Elems(dependents)
  {
    ghost var names0, cols0 := working.names, working.cols;
    ghost var gone: set<string> := {};
    DropNothing(names0, cols0);
    var j := 0;
    while j < |dependents|
      invariant 0 <= j <= |dependents|
      invariant gone == Elems(dependents[..j])
      invariant working.Valid() && working.height == old(working.height)
      invariant Left(working.names, working.cols, names0, cols0, gone)
    {
      var col := dependents[j];
      DropStep(names0, cols0, gone, col);
      ElemsStep(dependents, j);
      if col in working.names {
        working.Drop(col);
      }
      gone := gone + {col};
      j := j + 1;
    }
    assert dependents[..j] == dependents;
  }

  lemma DropNothing<A>(names0: seq<string>, cols0: map<string, seq<Cell<A>>>)
    ensures Without(names0, {}) == names0 && cols0 - {} == cols0
  {
    WithoutNothing(names0, {});
  }

  /** Dropping the dependents of one more entry of the structure. */
  lemma DropRound<A>(names0: seq<string>, cols0: map<string, seq<Cell<A>>>, structure: Dict, n: nat)
    requires Ordered(structure) && n < |structure.keys|
    ensures Without(Without(names0, DependentsUpTo(structure, n)), Elems(structure.values[structure.keys[n]]))
         == Without(names0, DependentsUpTo(structure, n + 1))
    ensures (cols0 - DependentsUpTo(structure, n)) - Elems(structure.values[structure.keys[n]])
         == cols0 - DependentsUpTo(structure, n + 1)
  {
    WithoutWithout(names0, DependentsUpTo(structure, n), Elems(structure.values[structure.keys[n]]));
  }

  /** Names and columns are what is left of names0 and cols0 once the
      columns in gone are dropped. */
  ghost predicate Left<A>(names: seq<string>, cols: map<string, seq<Cell<A>>>, names0: seq<string>,
                          cols0: map<string, seq<Cell<A>>>, gone: set<string>) {
    names == Without(names0, gone) && cols == cols0 - gone
  }

  /** Lines 68-71: every dependent of the column structure that is still a
      column is dropped; the other columns keep their order and values. */
  method DropDependents<A(==)>(working: Table<A>, structure: Dict)
    requires working.Valid() && Ordered(structure)
    modifies working
    ensures working.Valid() && working.height == old(working.height)
    ensures working.names == Without(old(working.names), Dependents(structure))
    ensures working.cols == old(working.cols) - Dependents(structure)
  {
    ghost var names0, cols0 := working.names, working.cols;
    DropNothing(names0, cols0);
    var n := 0;
    while n < |structure.keys|
      invariant 0 <= n <= |structure.keys|
      invariant working.Valid() && working.height == old(working.height)
      invariant Left(working.names, working.cols, names0, cols0, DependentsUpTo(structure, n))
    {
      DropEntry(working, structure, n, names0, cols0);
      n := n + 1;
    }
    DependentsUpToAll(structure);
  }

  /** One turn of the loop of lines 68-71: the dependents of entry n leave
      the working table. */
  method DropEntry<A(==)>(working: Table<A>, structure: Dict, n: nat,
                          ghost names0: seq<string>, ghost cols0: map<string, seq<Cell<A>>>)
    requires working.Valid() && Ordered(structure) && n < |structure.keys|
    requires Left(working.names, working.cols, names0, cols0, DependentsUpTo(structure, n))
    modifies working
    ensures working.Valid() && working.height == old(working.height)
    ensures Left(working.names, working.cols, names0, cols0, DependentsUpTo(structure, n + 1))
  {
    DropColumns(working, structure.values[structure.keys[n]]);
    DropRound(names0, cols0, structure, n);
  }

  /** Lines 50-71, `extract_columns_to_new_table`: the subtables of a column
      structure are added to the output, then its dependents leave the
      working table. A missing column raises a KeyError before anything is
      dropped. */
  method ExtractColumnsToNewTable<A(==)>(working: Table<A>, structure: Dict, composites: Dict, keyFlag: string,
                                         p: Progress<A>) returns (res: Result<Progress<A>>)
    requires working.Valid() && Ordered(structure) && Consistent(p, working.height)
    modifies working
    ensures working.Valid() && working.height == old(working.height)
    ensures res.KeyError? ==> unchanged(working) && res.column !in working.names
    ensures res.KeyError? ==> !HeadersPresent(structure, composites, working.cols.Keys, |structure.keys|)
    ensures res.Ok? ==> HeadersPresent(structure, composites, old(working.cols).Keys, |structure.keys|)
    ensures res.Ok? ==> res.value == Extended(p, old(working.cols), working.height, structure, composites, keyFlag,
                                              |structure.keys|)
    ensures res.Ok? ==> Consistent(res.value, working.height)
    ensures res.Ok? ==> working.names == Without(old(working.names), Dependents(structure))
    ensures res.Ok? ==> working.cols == old(working.cols) - Dependents(structure)
  {
    res := CreateSubtables(working, structure, composites, keyFlag, p);
    if res.Ok? {
      DropDependents(working, structure);
    }
  }

  /** Each composite's column holds, row by row, the composite of its listed
      columns as they are in cols0. */
  ghost predicate Composed<A>(cols0: map<string, seq<Cell<A>>>, cols: map<string, seq<Cell<A>>>, composites: Dict,
                              height: nat, joiner: string, show: A -> string) {
    forall k :: k in composites.values ==>
      && HasColumns(cols0, composites.values[k], height)
      && k in cols && cols[k] == CompositeColumn(cols0, composites.values[k], height, joiner, show)
  }

  /** A composite column depends only on the columns it lists. */
  lemma CompositeColumnSameOn<A>(cols: map<string, seq<Cell<A>>>, cols': map<string, seq<Cell<A>>>,
                                 columns: seq<string>, height: nat, joiner: string, show: A -> string)
    requires HasColumns(cols, columns, height)
    requires forall c :: c in columns ==> c in cols' && cols'[c] == cols[c]
    ensures HasColumns(cols', columns, height)
    ensures CompositeColumn(cols', columns, height, joiner, show) == CompositeColumn(cols, columns, height, joiner, show)
  {
    forall i | 0 <= i < height
      ensures CompositeCell(cols', columns, i, joiner, show) == CompositeCell(cols, columns, i, joiner, show)
    {
      assert seq(|columns|, k requires 0 <= k < |columns| => Str(cols'[columns[k]][i], show))
          == seq(|columns|, k requires 0 <= k < |columns| => Str(cols[columns[k]][i], show));
    }
  }

  /** Recording one more composite column keeps every composite composed. */
  lemma ComposedPut<A>(cols0: map<string, seq<Cell<A>>>, before: map<string, seq<Cell<A>>>,
                       after: map<string, seq<Cell<A>>>, composites: Dict, name: string, combo: seq<string>,
                       height: nat, joiner: string, show: A -> string)
    requires Composed(cols0, before, composites, height, joiner, show)
    requires forall k :: k in composites.values ==> k in before && k in after && after[k] == before[k]
    requires HasColumns(cols0, combo, height)
    requires name in after && after[name] == CompositeColumn(cols0, combo, height, joiner, show)
    ensures Composed(cols0, after, Put(composites, name, combo), height, joiner, show)
  {
  }

  /** Recording the i-th combination under a new name keeps the dictionary
      in the order of the combinations. */
  lemma PutInOrder(composites: Dict, name: string, combos: seq<seq<string>>, i: nat)
    requires Ordered(composites) && |composites.keys| == i < |combos| && name !in composites.values
    requires forall j :: 0 <= j < i ==> composites.values[composites.keys[j]] == combos[j]
    ensures var d := Put(composites, name, combos[i]);
            forall j :: 0 <= j < i + 1 ==> d.values[d.keys[j]] == combos[j]
  {
    var d := Put(composites, name, combos[i]);
    assert d.keys == composites.keys + [name];
    forall j | 0 <= j < i + 1 ensures d.values[d.keys[j]] == combos[j] {
      if j < i {
        assert composites.keys[j] in composites.values;
      }
    }
  }

  /** The first i combinations are recorded, in order, as composite columns
      appended after the names of the table as it was. */
  ghost predicate AddedSoFar<A>(names0: seq<string>, cols0: map<string, seq<Cell<A>>>, names: seq<string>,
                                cols: map<string, seq<Cell<A>>>, composites: Dict, combos: seq<seq<string>>,
                                i: nat, height: nat, joiner: string, show: A -> string) {
    && Ordered(composites) && |composites.keys| == i <= |combos|
    && names == names0 + composites.keys
    && (forall j :: 0 <= j < i ==>
          composites.keys[j] in composites.values && composites.values[composites.keys[j]] == combos[j])
    && (forall c :: c in names0 ==> c in cols && c in cols0 && cols[c] == cols0[c])
    && Composed(cols0, cols, composites, height, joiner, show)
  }

  /** Appending the composite column of the i-th combination. */
  lemma AddedStep<A>(names0: seq<string>, cols0: map<string, seq<Cell<A>>>, names: seq<string>,
                     cols: map<string, seq<Cell<A>>>, names': seq<string>, cols': map<string, seq<Cell<A>>>,
                     composites: Dict, combos: seq<seq<string>>, i: nat, name: string,
                     height: nat, joiner: string, show: A -> string)
    requires AddedSoFar(names0, cols0, names, cols, composites, combos, i, height, joiner, show)
    requires i < |combos| && name !in names && names' == names + [name]
    requires forall c :: c in names ==> c in cols' && cols'[c] == cols[c]
    requires forall c :: c in combos[i] ==> c in names0
    requires HasColumns(cols, combos[i], height)
    requires name in cols' && cols'[name] == CompositeColumn(cols, combos[i], height, joiner, show)
    ensures AddedSoFar(names0, cols0, names', cols', Put(composites, name, combos[i]), combos, i + 1,
                       height, joiner, show)
  {
    var combo := combos[i];
    CompositeColumnSameOn(cols, cols0, combo, height, joiner, show);
    forall k | k in composites.values ensures k in names && k in cols && k in cols' && cols'[k] == cols[k] {
      assert k in composites.keys;
    }
    ComposedPut(cols0, cols, cols', composites, name, combo, height, joiner, show);
    PutInOrder(composites, name, combos, i);
  }

  /** Lines 94-98: one composite column for each combination of `depth`
      working columns, in the order `itertools.combinations` lists them; the
      dictionary maps each composite's name to its columns. */
  method AddComposites<A(==)>(working: Table<A>, workingColumns: seq<string>, depth: nat, joiner: string,
                              show: A -> string) returns (composites: Dict)
    requires working.Valid() && joiner != ""
    requires forall c :: c in workingColumns ==> c in working.names
    modifies working
    ensures working.Valid() && working.height == old(working.height)
    ensures Ordered(composites)
    ensures working.names == old(working.names) + composites.keys
    ensures |composites.keys| == |Combinations(workingColumns, depth)| == Binomial(|workingColumns|, depth)
    ensures forall i :: 0 <= i < |composites.keys| ==>
              composites.values[composites.keys[i]] == Combinations(workingColumns, depth)[i]
    ensures forall c :: c in old(working.names) ==> working.cols[c] == old(working.cols)[c]
    ensures Composed(old(working.cols), working.cols, composites, working.height, joiner, show)
  {
    ghost var names0, cols0 := working.names, working.cols;
    var combos := Combinations(workingColumns, depth);
    CombinationsCount(workingColumns, depth);
    composites := Empty;
    var i := 0;
    while i < |combos|
      invariant working.Valid() && working.height == old(working.height)
      invariant AddedSoFar(names0, cols0, working.names, working.cols, composites, combos, i,
                           working.height, joiner, show)
    {
      var combo := combos[i];
      CombinationMembers(workingColumns, depth, combo);
      ghost var namesBefore, colsBefore := working.names, working.cols;
      var name := working.AddCompositeColumn(combo, None, joiner, show);
      AddedStep(names0, cols0, namesBefore, colsBefore, working.names, working.cols, composites, combos, i,
                name, working.height, joiner, show);
      composites := Put(composites, name, combo);
      i := i + 1;
    }
  }

  /** q continues p: everything p lists is still listed first in q. */
  ghost predicate Grows<A>(p: Progress<A>, q: Progress<A>) {
    && p.subtables <= q.subtables
    && p.keyLists <= q.keyLists
    && p.foreignKeys <= q.foreignKeys
    && p.constants <= q.constants
    && p.uniques <= q.uniques
  }

  lemma GrowsTransitive<A>(p: Progress<A>, q: Progress<A>, r: Progress<A>)
    requires Grows(p, q) && Grows(q, r)
    ensures Grows(p, r)
  {
  }

  /** The column structure a pass builds from what it detected: lines
      109-112 from the Bijective groups, or lines 115-127 from the
      Identifies pairs that are not composite-redundant. */
  function StructureFor(rel: Relationships, bijective: bool, composites: Dict, depth: int): (d: Dict)
    requires bijective ==> forall g :: g in rel.bijective ==> |g| > 0
    ensures Ordered(d)
  {
    if bijective then BijectiveStructure(rel.bijective)
    else
      var identifies := if depth > 1 then Without(rel.identifies, RedundantPairs(rel.identifies, composites))
                        else rel.identifies;
      IdentificationStructure(identifies).0
  }

  /** Lines 102 and 115, `mark_constants_and_uniques`: the Constant and
      Unique columns of a pass are added to those seen so far. */
  function Marked<A>(p: Progress<A>, rel: Relationships): Progress<A> {
    p.(constants := AppendAbsent(p.constants, rel.constant), uniques := AppendAbsent(p.uniques, rel.unique))
  }

  /** One extraction pass as it happened: the contents of the working table
      it saw, the relationships detected there, the column structure built
      from them, and the output before and after. */
  datatype Pass<A> = Pass(seen: Contents<A>, rel: Relationships, structure: Dict,
                          before: Progress<A>, after: Progress<A>)

  /** A successful pass: rel is what detection finds in the table seen, the
      structure is built from rel, and the output gains the subtable of
      every entry of the structure, in order, taken from the columns seen. */
  ghost predicate Passed<A>(pass: Pass<A>, composites: Dict, depth: int, keyFlag: string, bijective: bool) {
    pass.seen.Valid() &&
    var detected := Detected(pass.seen, pass.rel);
    var built := detected && pass.structure == StructureFor(pass.rel, bijective, composites, depth);
    var extracted := built && HeadersPresent(pass.structure, composites, pass.seen.cols.Keys, |pass.structure.keys|)
                     && pass.after == Extended(Marked(pass.before, pass.rel), pass.seen.cols, pass.seen.height,
                                               pass.structure, composites, keyFlag, |pass.structure.keys|);
    detected && built && extracted
  }

  /** A failed pass: detection and the structure are as in a successful
      pass, but a header of the structure is not a column of the table seen
      (line 61), and the KeyError names a column the table does not have. */
  ghost predicate PassFailed<A>(pass: Pass<A>, composites: Dict, depth: int, bijective: bool, column: string) {
    pass.seen.Valid() &&
    var detected := Detected(pass.seen, pass.rel);
    var built := detected && pass.structure == StructureFor(pass.rel, bijective, composites, depth);
    var missing := built && !HeadersPresent(pass.structure, composites, pass.seen.cols.Keys, |pass.structure.keys|)
                   && column !in pass.seen.names;
    detected && built && missing
  }

  /** Lines 102-108 (bijective) and 115-127 (identification): one extraction
      pass. The relationships of the working table are detected, its
      Constant and Unique columns recorded, and a column structure built
      from them; its subtables are then extracted and its dependents leave
      the working table. A missing column raises a KeyError and leaves the
      working table as it was. */
  method ExtractPass<A(==)>(working: Table<A>, composites: Dict, depth: nat, keyFlag: string, bijective: bool,
                            p: Progress<A>) returns (res: Result<Progress<A>>, ghost pass: Pass<A>)
    requires working.Valid() && Consistent(p, working.height)
    modifies working
    ensures working.Valid() && working.height == old(working.height)
    ensures pass.seen == old(working.Value()) && pass.before == p
    ensures Detected(pass.seen, pass.rel)
    ensures pass.structure == StructureFor(pass.rel, bijective, composites, depth)
    ensures res.KeyError? ==> unchanged(working)
    ensures res.KeyError? ==> PassFailed(pass, composites, depth, bijective, res.column)
    ensures res.Ok? ==> Passed(pass, composites, depth, keyFlag, bijective) && res.value == pass.after
    ensures res.Ok? ==> Consistent(res.value, working.height) && Grows(p, res.value)
    ensures res.Ok? ==> working.names == Without(pass.seen.names, Dependents(pass.structure))
    ensures res.Ok? ==> working.cols == pass.seen.cols - Dependents(pass.structure)
  {
    var r := DetectColumnRelationships(working.Value());
    var constants, uniques := MarkConstantsAndUniques(p.constants, p.uniques, r);
    var structure;
    if bijective {
      // remove_composite_redundancy edits only the Identifies list, which
      // this pass does not read
      structure := BuildBijectiveStructure(r.bijective);
    } else {
      var identifies := RemoveCompositeRedundancy(r.identifies, composites, depth);
      structure := BuildIdentificationStructure(identifies);
    }
    var p' := p.(constants := constants, uniques := uniques);
    ghost var seen := working.Value();
    res := ExtractColumnsToNewTable(working, structure, composites, keyFlag, p');
    pass := Pass(seen, r, structure, p, if res.Ok? then res.value else p');
  }

  /** The key of every entry of a pass's structure identifies each of its
      dependents in the table the pass saw: both ways for a Bijective group,
      one way for an Identifies pair. */
  lemma PassDetermines<A>(pass: Pass<A>, composites: Dict, depth: int, keyFlag: string, bijective: bool)
    requires Passed(pass, composites, depth, keyFlag, bijective)
    ensures forall k, c :: k in pass.structure.values && c in pass.structure.values[k] ==>
              if bijective then Mutually(pass.seen, k, c) else OneWay(pass.seen, (k, c))
  {
    var t, rel := pass.seen, pass.rel;
    if bijective {
      GroupsDetermine(t, rel.bijective);
    } else {
      var identifies := if depth > 1 then Without(rel.identifies, RedundantPairs(rel.identifies, composites))
                        else rel.identifies;
      PairsDetermine(t, identifies);
    }
  }

  /** The key column of an entry determines each of its dependents, as
      functions of the row, in the table the pass saw. */
  lemma PassKeyDetermines<A>(pass: Pass<A>, composites: Dict, depth: int, keyFlag: string, bijective: bool,
                             k: string, c: string)
    requires Passed(pass, composites, depth, keyFlag, bijective)
    requires k in pass.structure.values && c in pass.structure.values[k]
    ensures k in pass.seen.cols && c in pass.seen.cols
    ensures Classifier.Determines(pass.seen.cols[k], pass.seen.cols[c])
  {
    PassDetermines(pass, composites, depth, keyFlag, bijective);
    assert SoundPair(pass.seen, (k, c));
    Classifier.ClassifyMeaning(pass.seen.cols[k], pass.seen.cols[c]);
  }

  /** The table a pass of a round saw, as it relates to the input's columns
      cols0: it has the input's height; each column that is not a composite
      of the round is an input column with the input's values; each
      composite is made of input columns that are not composites, and its
      column, where the table has it, is their composite. */
  ghost predicate SeenFrom<A>(seen: Contents<A>, composites: Dict, cols0: map<string, seq<Cell<A>>>, height: nat,
                              joiner: string, show: A -> string)
  {
    && seen.height == height
    && (forall c :: c in seen.cols && c !in composites.values ==> c in cols0 && seen.cols[c] == cols0[c])
    && (forall k :: k in composites.values ==>
          && HasColumns(cols0, composites.values[k], height)
          && (forall c :: c in composites.values[k] ==> c !in composites.values)
          && (k in seen.cols ==> seen.cols[k] == CompositeColumn(cols0, composites.values[k], height, joiner, show)))
  }

  /** An entry over a table drawn from the input, whose key column
      determines each of its dependents there and whose dependents are no
      composites, reads the input's own columns, and in the input its keys
      (the components, for a composite) determine its dependents. */
  lemma EntryOverInput<A>(t: Contents<A>, composites: Dict, k: string, dependents: seq<string>,
                          cols0: map<string, seq<Cell<A>>>, height: nat, joiner: string, show: A -> string)
    requires forall c :: c in t.cols ==> |t.cols[c]| == t.height
    requires forall c :: c in KeysFor(k, composites) + dependents ==> c in t.cols
    requires forall c :: c in dependents ==> c !in composites.values
    requires forall c :: c in dependents ==> k in t.cols && Classifier.Determines(t.cols[k], t.cols[c])
    requires SeenFrom(t, composites, cols0, height, joiner, show)
    ensures var keys := KeysFor(k, composites);
            && HasColumns(cols0, keys + dependents, height) && KeysDetermine(cols0, height, keys, dependents)
            && Project(t.cols, t.height, keys + dependents) == Project(cols0, height, keys + dependents)
  {
    var keys := KeysFor(k, composites);
    assert forall c :: c in keys + dependents ==> c !in composites.values;
    ProjectSameOn(t.cols, cols0, height, keys + dependents);
    forall i, j | 0 <= i < height && 0 <= j < height && AgreeOn(cols0, keys, i, j)
      ensures AgreeOn(cols0, dependents, i, j)
    {
      forall c | c in dependents ensures cols0[c][i] == cols0[c][j] {
        if k in composites.values {
          CompositeDeterminantSound(cols0, keys, height, joiner, show, cols0[c]);
        } else {
          assert k in keys;
        }
      }
    }
  }

  /** The subtable of an entry of a successful pass on a table drawn from
      the input, whose dependents are no composites, is the input's own:
      the projection of the input's columns onto the entry's keys and
      dependents, and in the input its keys determine its dependents. */
  lemma EntryFromInput<A>(pass: Pass<A>, composites: Dict, depth: int, keyFlag: string, bijective: bool,
                          cols0: map<string, seq<Cell<A>>>, height: nat, joiner: string, show: A -> string, n: nat)
    requires Passed(pass, composites, depth, keyFlag, bijective) && n < |pass.structure.keys|
    requires SeenFrom(pass.seen, composites, cols0, height, joiner, show)
    requires forall c :: c in Dependents(pass.structure) ==> c !in composites.values
    ensures var k := pass.structure.keys[n];
            var keys, dependents := KeysFor(k, composites), pass.structure.values[k];
            && HasColumns(cols0, keys + dependents, height) && KeysDetermine(cols0, height, keys, dependents)
            && NewTableAt(pass.seen.cols, pass.seen.height, pass.structure, composites, keyFlag, n)
               == NewTable(cols0, height, keys, dependents, keyFlag)
  {
    var t, k := pass.seen, pass.structure.keys[n];
    var dependents := pass.structure.values[k];
    assert Headers(pass.structure, composites, n) == KeysFor(k, composites) + dependents;
    forall c | c in dependents ensures c !in composites.values && k in t.cols && Classifier.Determines(t.cols[k], t.cols[c]) {
      assert c in Dependents(pass.structure);
      PassKeyDetermines(pass, composites, depth, keyFlag, bijective, k, c);
    }
    EntryOverInput(t, composites, k, dependents, cols0, height, joiner, show);
  }

  /** The subtable f with key list keys is lossless over the columns cols:
      it is the projection of cols onto keys then some dependents that the
      keys determine. */
  ghost predicate Lossless<A>(cols: map<string, seq<Cell<A>>>, height: nat, flag: string, f: Frame<A>,
                                  keys: seq<string>)
  {
    exists dependents :: HasColumns(cols, keys + dependents, height) && KeysDetermine(cols, height, keys, dependents)
                         && f == NewTable(cols, height, keys, dependents, flag)
  }

  /** Every subtable is lossless over cols with its key list. */
  ghost predicate AllLossless<A>(cols: map<string, seq<Cell<A>>>, height: nat, flag: string,
                                     subtables: seq<Frame<A>>, keyLists: seq<seq<string>>)
  {
    |subtables| == |keyLists| && forall m :: 0 <= m < |subtables| ==> Lossless(cols, height, flag, subtables[m], keyLists[m])
  }

  /** The subtable of an entry of a successful pass on a table drawn from
      the input, whose dependents are no composites, is lossless over the
      input with the entry's key list. */
  lemma EntryLossless<A>(pass: Pass<A>, composites: Dict, depth: int, keyFlag: string, bijective: bool,
                         cols0: map<string, seq<Cell<A>>>, height: nat, joiner: string, show: A -> string, n: nat)
    requires Passed(pass, composites, depth, keyFlag, bijective) && n < |pass.structure.keys|
    requires SeenFrom(pass.seen, composites, cols0, height, joiner, show)
    requires forall c :: c in Dependents(pass.structure) ==> c !in composites.values
    ensures Lossless(cols0, height, keyFlag,
                     NewTableAt(pass.seen.cols, pass.seen.height, pass.structure, composites, keyFlag, n),
                     KeysFor(pass.structure.keys[n], composites))
  {
    EntryFromInput(pass, composites, depth, keyFlag, bijective, cols0, height, joiner, show, n);
  }

  /** Adding the subtables of the first n entries of a structure, each
      lossless over cols0 with its key list, keeps every subtable so. */
  lemma ExtendedLossless<A>(p: Progress<A>, cols: map<string, seq<Cell<A>>>, height: nat, structure: Dict,
                            composites: Dict, flag: string, n: nat, cols0: map<string, seq<Cell<A>>>, height0: nat)
    requires Ordered(structure) && n <= |structure.keys|
    requires forall c :: c in cols ==> |cols[c]| == height
    requires HeadersPresent(structure, composites, cols.Keys, n)
    requires forall i :: 0 <= i < n ==>
               Lossless(cols0, height0, flag, NewTableAt(cols, height, structure, composites, flag, i),
                        KeysFor(structure.keys[i], composites))
    requires AllLossless(cols0, height0, flag, p.subtables, p.keyLists)
    ensures var q := Extended(p, cols, height, structure, composites, flag, n);
            AllLossless(cols0, height0, flag, q.subtables, q.keyLists)
  {
    var q := Extended(p, cols, height, structure, composites, flag, n);
    forall m | 0 <= m < |q.subtables| ensures Lossless(cols0, height0, flag, q.subtables[m], q.keyLists[m]) {
      if m >= |p.subtables| {
        var i := m - |p.subtables|;
        assert q.subtables[m] == NewTableAt(cols, height, structure, composites, flag, i);
        assert q.keyLists[m] == KeysFor(structure.keys[i], composites);
      }
    }
  }

  /** A successful pass on a table drawn from the input, whose dependents
      are no composites, adds only subtables that are lossless over the
      input. */
  lemma PassLossless<A>(pass: Pass<A>, composites: Dict, depth: int, keyFlag: string, bijective: bool,
                        cols0: map<string, seq<Cell<A>>>, height: nat, joiner: string, show: A -> string)
    requires Passed(pass, composites, depth, keyFlag, bijective)
    requires SeenFrom(pass.seen, composites, cols0, height, joiner, show)
    requires forall c :: c in Dependents(pass.structure) ==> c !in composites.values
    requires AllLossless(cols0, height, keyFlag, pass.before.subtables, pass.before.keyLists)
    ensures AllLossless(cols0, height, keyFlag, pass.after.subtables, pass.after.keyLists)
  {
    var t, structure := pass.seen, pass.structure;
    forall i | 0 <= i < |structure.keys|
      ensures Lossless(cols0, height, keyFlag, NewTableAt(t.cols, t.height, structure, composites, keyFlag, i),
                       KeysFor(structure.keys[i], composites))
    {
      EntryLossless(pass, composites, depth, keyFlag, bijective, cols0, height, joiner, show, i);
    }
    ExtendedLossless(Marked(pass.before, pass.rel), t.cols, t.height, structure, composites, keyFlag,
                     |structure.keys|, cols0, height);
  }

  /** The group an entry of the bijective structure comes from: its head is
      the key and the value is one of its other columns. */
  lemma EntryGroup(groups: seq<seq<string>>, k: string, c: string) returns (i: nat)
    requires Disjoint(groups) && forall g :: g in groups ==> |g| > 0
    requires k in BijectiveStructure(groups).values && c in BijectiveStructure(groups).values[k]
    ensures i < |groups| && groups[i][0] == k && c in groups[i][1..]
  {
    BijectiveStructureKeys(groups);
    assert k in Dedup(Firsts(groups));
    i :| 0 <= i < |groups| && Firsts(groups)[i] == k;
    assert groups[i] in groups;
    forall j | i < j < |groups| ensures groups[j][0] != groups[i][0] {
      assert groups[j] in groups;
      assert groups[i][0] in groups[i] && groups[j][0] in groups[j];
    }
    BijectiveStructureValues(groups, i);
  }

  /** The key of every entry of the bijective structure identifies each of
      its values both ways, given well-formed disjoint groups. */
  lemma GroupsDetermine<A>(t: Contents<A>, groups: seq<seq<string>>)
    requires t.Valid() && WellGrouped(t, groups) && Disjoint(groups)
    ensures var d := BijectiveStructure(groups);
            forall k, c :: k in d.values && c in d.values[k] ==> Mutually(t, k, c)
  {
    var d := BijectiveStructure(groups);
    forall k, c | k in d.values && c in d.values[k] ensures Mutually(t, k, c) {
      var i := EntryGroup(groups, k, c);
      var g := groups[i];
      assert g in groups;
      var n :| 0 <= n < |g[1..]| && g[1..][n] == c;
      assert g[n + 1] == c && g[0] != g[n + 1];
      assert k in g && c in g && Clique(t, g);
      assert IsCandidate(t, k) && IsCandidate(t, c);
      assert t.CharacterizeColumnRelationship(k, c) == Classifier.Identifies;
      assert t.CharacterizeColumnRelationship(c, k) == Classifier.Identifies;
    }
  }

  /** The key of every entry of the identification structure built from
      one-way pairs identifies each of its values one way. */
  lemma PairsDetermine<A>(t: Contents<A>, identifies: seq<Pair>)
    requires t.Valid() && forall p :: p in identifies ==> OneWay(t, p)
    ensures var d := IdentificationStructure(identifies).0;
            forall k, c :: k in d.values && c in d.values[k] ==> OneWay(t, (k, c))
  {
    IdentificationStructureSound(identifies);
  }

  /** A name that is not among the kept names and not dropped so far was
      never a name; one that is kept was a name. */
  lemma KeptOrAbsent(names0: seq<string>, gone: set<string>, col: string)
    requires col !in gone
    ensures col in Without(names0, gone) <==> col in names0
  {
  }

  /** Lines 130-131: the composite columns leave the working table in
      insertion order. Pandas raises a KeyError for one that is no longer
      there, which happens when an extraction already dropped it as a
      dependent. */
  method DropComposites<A(==)>(working: Table<A>, composites: Dict) returns (missing: Option<string>)
    requires working.Valid() && Ordered(composites)
    modifies working
    ensures working.Valid() && working.height == old(working.height)
    ensures missing.None? <==> forall k :: k in composites.keys ==> k in old(working.names)
    ensures missing.Some? ==> missing.value in composites.keys && missing.value !in old(working.names)
    ensures missing.None? ==> working.names == Without(old(working.names), Elems(composites.keys))
    ensures missing.None? ==> working.cols == old(working.cols) - Elems(composites.keys)
  {
    ghost var names0, cols0 := working.names, working.cols;
    ghost var gone: set<string> := {};
    var keys := composites.keys;
    DropNothing(names0, cols0);
    var j := 0;
    while j < |keys|
      invariant 0 <= j <= |keys|
      invariant working.Valid() && working.height == old(working.height)
      invariant gone == Elems(keys[..j])
      invariant forall k :: k in gone ==> k in names0
      invariant Left(working.names, working.cols, names0, cols0, gone)
    {
      var col := keys[j];
      ElemsStep(keys, j);
      NotYetListed(keys, j);
      KeptOrAbsent(names0, gone, col);
      if col !in working.names {
        return Some(col);
      }
      DropStep(names0, cols0, gone, col);
      working.Drop(col);
      gone := gone + {col};
      j := j + 1;
    }
    assert keys[..j] == keys;
    missing := None;
  }

  /** What one round leaves of the names: the added composites and whatever
      the two passes and the composite drop removed are gone, the rest keeps
      its order. */
  lemma RoundNames(names0: seq<string>, composites: seq<string>, d1: set<string>, d2: set<string>)
    ensures Without(Without(Without(names0 + composites, d1), d2), Elems(composites))
         == Without(names0, d1 + d2 + Elems(composites))
  {
    var d := d1 + d2 + Elems(composites);
    WithoutWithout(names0 + composites, d1, d2);
    WithoutWithout(names0 + composites, d1 + d2, Elems(composites));
    WithoutConcat(names0, composites, d);
    WithoutCovered(composites, d);
  }

  /** One round as it happened: the composites it added and its two
      passes. */
  datatype RoundTrace<A> = RoundTrace(added: Dict, first: Pass<A>, second: Pass<A>)

  /** The columns a round removes for good: the dependents of both passes
      and its composites. */
  function RoundDropped<A(==)>(rt: RoundTrace<A>): set<string> {
    Dependents(rt.first.structure) + Dependents(rt.second.structure) + Elems(rt.added.keys)
  }

  /** Lines 102-127: the bijective pass on the working table, then the
      identification pass on what it left. A KeyError comes from the first
      pass that fails. */
  method BothPasses<A(==)>(working: Table<A>, composites: Dict, depth: nat, keyFlag: string, p: Progress<A>)
    returns (res: Result<Progress<A>>, ghost first: Pass<A>, ghost second: Pass<A>)
    requires working.Valid() && Consistent(p, working.height)
    modifies working
    ensures working.Valid() && working.height == old(working.height)
    ensures first.seen == old(working.Value()) && first.before == p
    ensures res.KeyError? ==> PassesFailed(RoundTrace(composites, first, second), depth, keyFlag, res.column)
    ensures res.Ok? ==> RoundPassed(RoundTrace(composites, first, second), depth, keyFlag)
    ensures res.Ok? ==> second.after == res.value
    ensures res.Ok? ==> working.names == Without(second.seen.names, Dependents(second.structure))
    ensures res.Ok? ==> working.cols == second.seen.cols - Dependents(second.structure)
    ensures res.Ok? ==> Consistent(res.value, working.height) && Grows(p, res.value)
  {
    var q;
    q, first := ExtractPass(working, composites, depth, keyFlag, true, p);
    second := first;
    if q.KeyError? {
      return q, first, second;
    }
    res, second := ExtractPass(working, composites, depth, keyFlag, false, q.value);
    if res.Ok? {
      GrowsTransitive(p, q.value, res.value);
    }
  }

  /** Lines 102-131: both extraction passes, then the composites are
      dropped. The drop raises a KeyError for the first composite that a
      pass already removed. */
  method PassesThenDrop<A(==)>(working: Table<A>, composites: Dict, depth: nat, keyFlag: string, p: Progress<A>)
    returns (res: Result<Progress<A>>, ghost first: Pass<A>, ghost second: Pass<A>)
    requires working.Valid() && Consistent(p, working.height) && Ordered(composites)
    modifies working
    ensures working.Valid() && working.height == old(working.height)
    ensures first.seen == old(working.Value()) && first.before == p
    ensures res.KeyError? ==>
              || PassesFailed(RoundTrace(composites, first, second), depth, keyFlag, res.column)
              || (&& RoundPassed(RoundTrace(composites, first, second), depth, keyFlag)
                  && res.column in composites.keys
                  && res.column !in Without(second.seen.names, Dependents(second.structure)))
    ensures res.Ok? ==> RoundPassed(RoundTrace(composites, first, second), depth, keyFlag)
    ensures res.Ok? ==> second.after == res.value
    ensures res.Ok? ==> forall k :: k in composites.keys ==> k in Without(second.seen.names, Dependents(second.structure))
    ensures res.Ok? ==> working.names == Without(Without(second.seen.names, Dependents(second.structure)),
                                                  Elems(composites.keys))
    ensures res.Ok? ==> working.cols == second.seen.cols - Dependents(second.structure) - Elems(composites.keys)
    ensures res.Ok? ==> Consistent(res.value, working.height) && Grows(p, res.value)
  {
    res, first, second := BothPasses(working, composites, depth, keyFlag, p);
    if res.Ok? {
      var missing := DropComposites(working, composites);
      if missing.Some? {
        res := KeyError(missing.value);
      }
    }
  }

  /** Lines 91-133, one iteration of the depth loop after its early exit:
      at depth > 1 the composites of `depth` working columns are added; then
      the bijective pass runs on the table with the composites, the
      identification pass on what the bijective pass left, and the
      composites are dropped again. On success the working table has lost
      exactly the dependents of both passes (and the composites), and kept
      the other columns in order and with their values; on failure the
      round says which step failed. */
  method Round<A(==)>(working: Table<A>, depth: nat, workingColumns: seq<string>, joiner: string, keyFlag: string,
                      show: A -> string, p: Progress<A>) returns (res: Result<Progress<A>>, ghost rt: RoundTrace<A>)
    requires working.Valid() && Consistent(p, working.height)
    requires depth > 1 ==> joiner != "" && forall c :: c in workingColumns ==> c in working.names
    modifies working
    ensures working.Valid() && working.height == old(working.height)
    ensures RoundAdded(rt.added, workingColumns, depth)
    ensures depth > 1 ==> |rt.added.keys| == Binomial(|workingColumns|, depth)
    ensures RoundSaw(rt, old(working.names), old(working.cols), old(working.height), joiner, show)
    ensures rt.first.before == p
    ensures res.KeyError? ==> RoundFailed(rt, depth, keyFlag, res.column)
    ensures res.Ok? ==> RoundPassed(rt, depth, keyFlag) && CompositesKept(rt) && rt.second.after == res.value
    ensures res.Ok? ==> working.names == Without(old(working.names), RoundDropped(rt))
    ensures res.Ok? ==> forall c :: c in working.names ==> c in old(working.cols) && working.cols[c] == old(working.cols)[c]
    ensures res.Ok? ==> Consistent(res.value, working.height) && Grows(p, res.value)
  {
    ghost var names0, cols0 := working.names, working.cols;
    var composites := Empty;
    if depth > 1 {
      composites := AddComposites(working, workingColumns, depth, joiner, show);
    } else {
      assert working.names == names0 + composites.keys;
    }
    ghost var first, second;
    res, first, second := PassesThenDrop(working, composites, depth, keyFlag, p);
    rt := RoundTrace(composites, first, second);
    ghost var d1, d2 := Dependents(first.structure), Dependents(second.structure);
    if res.Ok? {
      RoundNames(names0, composites.keys, d1, d2);
      forall k | k in composites.keys ensures k !in d1 && k !in d2 {
        CompositeGone(names0, composites.keys, d1, d2, k);
      }
    } else if !PassesFailed(rt, depth, keyFlag, res.column) {
      CompositeGone(names0, composites.keys, d1, d2, res.column);
    }
  }

  /** A composite is missing after both passes exactly when one of them
      removed it as a dependent. */
  lemma CompositeGone(names0: seq<string>, composites: seq<string>, d1: set<string>, d2: set<string>, k: string)
    requires k in composites
    ensures k !in Without(Without(names0 + composites, d1), d2) <==> k in d1 || k in d2
  {
  }

  /** What the first pass of a round saw: the working table as the round
      found it, of the same height, plus the round's composites, each
      composed of columns of that table. */
  ghost predicate RoundSaw<A>(rt: RoundTrace<A>, names0: seq<string>, cols0: map<string, seq<Cell<A>>>,
                                  height: nat, joiner: string, show: A -> string)
  {
    && rt.first.seen.names == names0 + rt.added.keys && rt.first.seen.height == height
    && (forall c :: c in names0 ==> c in rt.first.seen.cols && c in cols0 && rt.first.seen.cols[c] == cols0[c])
    && Composed(cols0, rt.first.seen.cols, rt.added, height, joiner, show)
  }

  /** The second pass of a round ran on what the first left: its columns
      minus the first pass's dependents, the same number of rows, and its
      output. */
  ghost predicate Chained<A>(rt: RoundTrace<A>) {
    && rt.second.before == rt.first.after && rt.second.seen.height == rt.first.seen.height
    && rt.second.seen.names == Without(rt.first.seen.names, Dependents(rt.first.structure))
    && rt.second.seen.cols == rt.first.seen.cols - Dependents(rt.first.structure)
  }

  /** Both passes of a round succeeded, the second on what the first left. */
  ghost predicate RoundPassed<A>(rt: RoundTrace<A>, depth: int, keyFlag: string)
  {
    var bijectivePass := Passed(rt.first, rt.added, depth, keyFlag, true);
    var identificationPass := Passed(rt.second, rt.added, depth, keyFlag, false);
    bijectivePass && identificationPass && Chained(rt)
  }

  /** One of the passes of a round failed: the bijective pass, or the
      identification pass after the bijective pass succeeded. */
  ghost predicate PassesFailed<A>(rt: RoundTrace<A>, depth: int, keyFlag: string, column: string)
  {
    || PassFailed(rt.first, rt.added, depth, true, column)
    || (&& Passed(rt.first, rt.added, depth, keyFlag, true) && Chained(rt)
        && PassFailed(rt.second, rt.added, depth, false, column))
  }

  /** No pass of a round removed one of its composites as a dependent, so
      line 131 finds them all. */
  ghost predicate CompositesKept<A>(rt: RoundTrace<A>) {
    forall k :: k in rt.added.keys ==> k !in Dependents(rt.first.structure) && k !in Dependents(rt.second.structure)
  }

  /** A round that raised a KeyError for column: a pass failed, or both
      passes succeeded and one of them removed the composite column as a
      dependent before line 131 drops it. */
  ghost predicate RoundFailed<A>(rt: RoundTrace<A>, depth: int, keyFlag: string, column: string)
  {
    || PassesFailed(rt, depth, keyFlag, column)
    || (&& RoundPassed(rt, depth, keyFlag) && column in rt.added.keys
        && (column in Dependents(rt.first.structure) || column in Dependents(rt.second.structure)))
  }

  /** The result of the decomposition: the tables, the reduced original
      first, and for each table the list of its key columns (for the first,
      every key column of the others). */
  datatype Decomposition<A> = Decomposition(tables: seq<Frame<A>>, schema: seq<seq<string>>)

  /** Projections agree when the columns they read agree. */
  lemma ProjectSameOn<A>(cols: map<string, seq<Cell<A>>>, cols': map<string, seq<Cell<A>>>, height: nat,
                         headers: seq<string>)
    requires HasColumns(cols, headers, height)
    requires forall c :: c in headers ==> c in cols' && cols'[c] == cols[c]
    ensures HasColumns(cols', headers, height)
    ensures Project(cols', height, headers) == Project(cols, height, headers)
  {
    forall i | 0 <= i < height ensures Project(cols', height, headers)[i] == Project(cols, height, headers)[i] {
      assert forall k :: 0 <= k < |headers| ==> headers[k] in headers;
    }
  }

  /** Tables put after a first one keep their key lists, so they stay
      lossless over cols0. */
  lemma PrependedLossless<A>(first: Frame<A>, firstKeys: seq<string>, out: Progress<A>, keyFlag: string,
                             cols0: map<string, seq<Cell<A>>>, height0: nat)
    requires AllLossless(cols0, height0, keyFlag, out.subtables, out.keyLists)
    ensures var tables, schema := [first] + out.subtables, [firstKeys] + out.keyLists;
            forall i :: 1 <= i < |tables| ==> Lossless(cols0, height0, keyFlag, tables[i], schema[i])
  {
    var tables, schema := [first] + out.subtables, [firstKeys] + out.keyLists;
    forall i | 1 <= i < |tables| ensures Lossless(cols0, height0, keyFlag, tables[i], schema[i]) {
      assert tables[i] == out.subtables[i - 1] && schema[i] == out.keyLists[i - 1];
    }
  }

  /** With no subtables the output is the input table alone, unflagged. */
  lemma AssembledAlone<A>(cols: map<string, seq<Cell<A>>>, height: nat, names: seq<string>, keyFlag: string)
    requires HasColumns(cols, names, height)
    ensures Assembled(cols, height, names, Progress([], [], [], [], []), keyFlag)
         == Decomposition([Frame(names, Project(cols, height, names))], [[]])
  {
    assert Flag(names, [], keyFlag) == names;
  }

  /** The composites a round adds: at depth > 1 one per combination of
      `depth` working columns, in order; none at depth 1. */
  ghost predicate RoundAdded(added: Dict, workingColumns: seq<string>, depth: int) {
    if depth > 1 then
      && Ordered(added) && |added.keys| == |Combinations(workingColumns, depth)|
      && (forall i :: 0 <= i < |added.keys| ==> added.values[added.keys[i]] == Combinations(workingColumns, depth)[i])
    else added == Empty
  }

  /** The columns a run of rounds removes for good. */
  function DroppedBy<A(==)>(trace: seq<RoundTrace<A>>): set<string> {
    if |trace| == 0 then {} else DroppedBy(trace[..|trace| - 1]) + RoundDropped(trace[|trace| - 1])
  }

  /** The output after a run of rounds. */
  function Final<A(==)>(trace: seq<RoundTrace<A>>): Progress<A> {
    if |trace| == 0 then Progress([], [], [], [], []) else trace[|trace| - 1].second.after
  }

  /** Round rt, run after the rounds done on a table with names names0 and
      columns cols0, started as the depth loop starts it: at depth
      |done| + 1 on what the earlier rounds left, past the early exit of
      line 95 (the columns that are neither Constant nor Unique so far do
      not number that depth), with the composites of that depth over those
      columns, and with its first pass starting from the output of the
      earlier rounds. */
  ghost predicate StepStarted<A>(done: seq<RoundTrace<A>>, rt: RoundTrace<A>, names0: seq<string>,
                                 cols0: map<string, seq<Cell<A>>>, height: nat, joiner: string, show: A -> string)
  {
    var names := Without(names0, DroppedBy(done));
    var before := Final(done);
    var columns := Without(names, Elems(before.constants) + Elems(before.uniques));
    var added := (|done| + 1 > 1 ==> |columns| != |done| + 1) && RoundAdded(rt.added, columns, |done| + 1);
    var saw := RoundSaw(rt, names, cols0, height, joiner, show);
    added && saw && rt.first.before == before
  }

  /** Round rt started as StepStarted says, and both of its passes and the
      composite drop succeeded. */
  ghost predicate StepOk<A>(done: seq<RoundTrace<A>>, rt: RoundTrace<A>, names0: seq<string>,
                            cols0: map<string, seq<Cell<A>>>, height: nat, joiner: string, keyFlag: string,
                            show: A -> string)
  {
    && StepStarted(done, rt, names0, cols0, height, joiner, show)
    && RoundPassed(rt, |done| + 1, keyFlag) && CompositesKept(rt)
  }

  /** Round rt started as StepStarted says and raised a KeyError for
      column, as RoundFailed says. */
  ghost predicate StepFails<A>(done: seq<RoundTrace<A>>, rt: RoundTrace<A>, names0: seq<string>,
                               cols0: map<string, seq<Cell<A>>>, height: nat, joiner: string, keyFlag: string,
                               show: A -> string, column: string)
  {
    && StepStarted(done, rt, names0, cols0, height, joiner, show)
    && RoundFailed(rt, |done| + 1, keyFlag, column)
  }

  /** Lines 91-133 as they ran on a table with names names0 and columns
      cols0: every round follows the ones before it as StepOk says. */
  ghost predicate Traced<A>(trace: seq<RoundTrace<A>>, names0: seq<string>, cols0: map<string, seq<Cell<A>>>,
                            height: nat, joiner: string, keyFlag: string, show: A -> string)
  {
    forall i {:trigger StepOk(trace[..i], trace[i], names0, cols0, height, joiner, keyFlag, show)} ::
      0 <= i < |trace| ==> StepOk(trace[..i], trace[i], names0, cols0, height, joiner, keyFlag, show)
  }

  /** A run of rounds that ended in a KeyError for column: the rounds before
      the last one are traced, and the last one failed. */
  ghost predicate TracedFailure<A>(trace: seq<RoundTrace<A>>, names0: seq<string>, cols0: map<string, seq<Cell<A>>>,
                                   height: nat, joiner: string, keyFlag: string, show: A -> string, column: string)
  {
    |trace| > 0 &&
    var done := trace[..|trace| - 1];
    Traced(done, names0, cols0, height, joiner, keyFlag, show)
    && StepFails(done, trace[|trace| - 1], names0, cols0, height, joiner, keyFlag, show, column)
  }

  /** One more round extends the trace. */
  lemma TracedStep<A>(trace: seq<RoundTrace<A>>, rt: RoundTrace<A>, names0: seq<string>,
                      cols0: map<string, seq<Cell<A>>>, height: nat, joiner: string, keyFlag: string,
                      show: A -> string)
    requires Traced(trace, names0, cols0, height, joiner, keyFlag, show)
    requires StepOk(trace, rt, names0, cols0, height, joiner, keyFlag, show)
    ensures Traced(trace + [rt], names0, cols0, height, joiner, keyFlag, show)
  {
    var t' := trace + [rt];
    forall i | 0 <= i < |t'| ensures StepOk(t'[..i], t'[i], names0, cols0, height, joiner, keyFlag, show) {
      if i < |trace| {
        StepOkKept(trace, t', i, names0, cols0, height, joiner, keyFlag, show);
      } else {
        assert t'[..i] == trace && t'[i] == rt;
      }
    }
  }

  /** A round of a traced run keeps its place in any longer run. */
  lemma StepOkKept<A>(trace: seq<RoundTrace<A>>, longer: seq<RoundTrace<A>>, i: nat, names0: seq<string>,
                      cols0: map<string, seq<Cell<A>>>, height: nat, joiner: string, keyFlag: string,
                      show: A -> string)
    requires Traced(trace, names0, cols0, height, joiner, keyFlag, show)
    requires i < |trace| <= |longer| && longer[..|trace|] == trace
    ensures StepOk(longer[..i], longer[i], names0, cols0, height, joiner, keyFlag, show)
  {
    assert longer[..i] == trace[..i] && longer[i] == trace[i];
  }

  /** One more round drops what it dropped and leaves its output. */
  lemma ExtendedTrace<A>(trace: seq<RoundTrace<A>>, rt: RoundTrace<A>)
    ensures DroppedBy(trace + [rt]) == DroppedBy(trace) + RoundDropped(rt)
    ensures Final(trace + [rt]) == rt.second.after
  {
    assert (trace + [rt])[..|trace|] == trace;
  }

  /** A round run by the depth loop on what the earlier rounds left, past
      the early exit, starts as StepStarted says. */
  lemma RoundStarted<A>(trace: seq<RoundTrace<A>>, rt: RoundTrace<A>, names0: seq<string>,
                        cols0: map<string, seq<Cell<A>>>, height: nat, joiner: string, show: A -> string,
                        names: seq<string>, cols: map<string, seq<Cell<A>>>, workingColumns: seq<string>)
    requires names == Without(names0, DroppedBy(trace))
    requires forall c :: c in names ==> c in cols && c in cols0 && cols[c] == cols0[c]
    requires var p := Final(trace);
             workingColumns == if |trace| + 1 > 1 then Without(names, Elems(p.constants) + Elems(p.uniques)) else []
    requires |trace| + 1 > 1 ==> |workingColumns| != |trace| + 1
    requires RoundAdded(rt.added, workingColumns, |trace| + 1)
    requires RoundSaw(rt, names, cols, height, joiner, show) && rt.first.before == Final(trace)
    ensures StepStarted(trace, rt, names0, cols0, height, joiner, show)
  {
    AddedFrom(rt.added, workingColumns, |trace| + 1);
    RoundSawInput(rt, names, cols, cols0, height, joiner, show);
  }

  /** A round that started as StepStarted says and succeeded extends the
      trace, drops what it drops and leaves its output. */
  lemma NextRound<A>(trace: seq<RoundTrace<A>>, rt: RoundTrace<A>, names0: seq<string>,
                     cols0: map<string, seq<Cell<A>>>, height: nat, joiner: string, keyFlag: string,
                     show: A -> string, names: seq<string>)
    requires Traced(trace, names0, cols0, height, joiner, keyFlag, show)
    requires names == Without(names0, DroppedBy(trace))
    requires StepStarted(trace, rt, names0, cols0, height, joiner, show)
    requires RoundPassed(rt, |trace| + 1, keyFlag) && CompositesKept(rt)
    ensures Traced(trace + [rt], names0, cols0, height, joiner, keyFlag, show)
    ensures Final(trace + [rt]) == rt.second.after
    ensures Without(names, RoundDropped(rt)) == Without(names0, DroppedBy(trace + [rt]))
  {
    TracedStep(trace, rt, names0, cols0, height, joiner, keyFlag, show);
    ExtendedTrace(trace, rt);
    WithoutWithout(names0, DroppedBy(trace), RoundDropped(rt));
  }

  /** A round that started as StepStarted says and failed ends the run in
      a traced failure. */
  lemma FailedRound<A>(trace: seq<RoundTrace<A>>, rt: RoundTrace<A>, names0: seq<string>,
                       cols0: map<string, seq<Cell<A>>>, height: nat, joiner: string, keyFlag: string,
                       show: A -> string, column: string)
    requires Traced(trace, names0, cols0, height, joiner, keyFlag, show)
    requires StepStarted(trace, rt, names0, cols0, height, joiner, show)
    requires RoundFailed(rt, |trace| + 1, keyFlag, column)
    ensures TracedFailure(trace + [rt], names0, cols0, height, joiner, keyFlag, show, column)
  {
    assert (trace + [rt])[..|trace|] == trace;
  }

  /** The composites a round adds are made of its working columns. */
  lemma AddedFrom(added: Dict, workingColumns: seq<string>, depth: int)
    requires RoundAdded(added, workingColumns, depth)
    ensures forall k, c :: k in added.values && c in added.values[k] ==> c in workingColumns
  {
    if depth > 1 {
      forall k, c | k in added.values && c in added.values[k] ensures c in workingColumns {
        var i :| 0 <= i < |added.keys| && added.keys[i] == k;
        CombinationMembers(workingColumns, depth, added.values[k]);
      }
    }
  }

  /** What a round saw, restated over the input's columns, which agree
      with the round's own on the names it started from. */
  lemma RoundSawInput<A>(rt: RoundTrace<A>, names: seq<string>, cols: map<string, seq<Cell<A>>>,
                             cols0: map<string, seq<Cell<A>>>, height: nat, joiner: string, show: A -> string)
    requires RoundSaw(rt, names, cols, height, joiner, show)
    requires forall c :: c in names ==> c in cols && c in cols0 && cols[c] == cols0[c]
    requires forall k, c :: k in rt.added.values && c in rt.added.values[k] ==> c in names
    ensures RoundSaw(rt, names, cols0, height, joiner, show)
  {
    forall k | k in rt.added.values
      ensures HasColumns(cols0, rt.added.values[k], height)
      ensures rt.first.seen.cols[k] == CompositeColumn(cols0, rt.added.values[k], height, joiner, show)
    {
      CompositeColumnSameOn(cols, cols0, rt.added.values[k], height, joiner, show);
    }
  }

  /** Names listed once in a + b are in a or in b, not both. */
  lemma DistinctApart<T>(a: seq<T>, b: seq<T>, x: T)
    requires AllDistinct(a + b) && x in a
    ensures x !in b
  {
    var i :| 0 <= i < |a| && a[i] == x;
    forall j | 0 <= j < |b| ensures b[j] != x {
      assert (a + b)[i] == a[i] && (a + b)[|a| + j] == b[j];
    }
  }

  /** The first pass of a round that started as StepStarted says saw a
      table drawn from the input. */
  lemma FirstSeenFrom<A>(rt: RoundTrace<A>, names: seq<string>, cols0: map<string, seq<Cell<A>>>, height: nat,
                         joiner: string, show: A -> string, columns: seq<string>, depth: int)
    requires RoundSaw(rt, names, cols0, height, joiner, show) && rt.first.seen.Valid()
    requires RoundAdded(rt.added, columns, depth) && forall c :: c in columns ==> c in names
    ensures Ordered(rt.added)
    ensures SeenFrom(rt.first.seen, rt.added, cols0, height, joiner, show)
  {
    AddedFrom(rt.added, columns, depth);
    forall c | c in names ensures c !in rt.added.values {
      DistinctApart(names, rt.added.keys, c);
    }
  }

  /** A successful round whose passes saw tables drawn from the input adds
      only subtables that are lossless over the input. */
  lemma RoundLossless<A>(rt: RoundTrace<A>, depth: int, keyFlag: string, cols0: map<string, seq<Cell<A>>>,
                         height: nat, joiner: string, show: A -> string)
    requires RoundPassed(rt, depth, keyFlag) && CompositesKept(rt) && Ordered(rt.added)
    requires SeenFrom(rt.first.seen, rt.added, cols0, height, joiner, show)
    requires AllLossless(cols0, height, keyFlag, rt.first.before.subtables, rt.first.before.keyLists)
    ensures AllLossless(cols0, height, keyFlag, rt.second.after.subtables, rt.second.after.keyLists)
  {
    PassLossless(rt.first, rt.added, depth, keyFlag, true, cols0, height, joiner, show);
    PassLossless(rt.second, rt.added, depth, keyFlag, false, cols0, height, joiner, show);
  }

  /** A round that extends a traced run as StepOk says keeps every subtable
      lossless over the input. */
  lemma StepLossless<A>(done: seq<RoundTrace<A>>, rt: RoundTrace<A>, names0: seq<string>,
                        cols0: map<string, seq<Cell<A>>>, height: nat, joiner: string, keyFlag: string,
                        show: A -> string)
    requires StepOk(done, rt, names0, cols0, height, joiner, keyFlag, show)
    requires AllLossless(cols0, height, keyFlag, Final(done).subtables, Final(done).keyLists)
    ensures AllLossless(cols0, height, keyFlag, rt.second.after.subtables, rt.second.after.keyLists)
  {
    var names := Without(names0, DroppedBy(done));
    var before := Final(done);
    var columns := Without(names, Elems(before.constants) + Elems(before.uniques));
    FirstSeenFrom(rt, names, cols0, height, joiner, show, columns, |done| + 1);
    RoundLossless(rt, |done| + 1, keyFlag, cols0, height, joiner, show);
  }

  /** Every subtable that the first n rounds of a traced run extract is
      lossless over the input. */
  lemma {:induction false} LosslessUpTo<A>(trace: seq<RoundTrace<A>>, names0: seq<string>,
                                           cols0: map<string, seq<Cell<A>>>, height: nat, joiner: string,
                                           keyFlag: string, show: A -> string, n: nat)
    requires Traced(trace, names0, cols0, height, joiner, keyFlag, show) && n <= |trace|
    ensures AllLossless(cols0, height, keyFlag, Final(trace[..n]).subtables, Final(trace[..n]).keyLists)
  {
    if n > 0 {
      LosslessUpTo(trace, names0, cols0, height, joiner, keyFlag, show, n - 1);
      StepLossless(trace[..n - 1], trace[n - 1], names0, cols0, height, joiner, keyFlag, show);
    }
  }

  /** Every subtable of a traced run is lossless over the input: it is the
      projection of the input onto its key list then dependents that the
      keys determine, so each input row is found in it by its keys. */
  lemma TracedLossless<A>(trace: seq<RoundTrace<A>>, names0: seq<string>, cols0: map<string, seq<Cell<A>>>,
                          height: nat, joiner: string, keyFlag: string, show: A -> string)
    requires Traced(trace, names0, cols0, height, joiner, keyFlag, show)
    ensures AllLossless(cols0, height, keyFlag, Final(trace).subtables, Final(trace).keyLists)
  {
    LosslessUpTo(trace, names0, cols0, height, joiner, keyFlag, show, |trace|);
    assert trace[..|trace|] == trace;
  }

  /** No input row is lost: in a traced run, for every input row i and
      every extracted subtable, exactly one row of the subtable agrees with
      row i on the subtable's key columns, and that row carries row i's
      values of the subtable's dependents. */
  lemma TracedRowKept<A>(trace: seq<RoundTrace<A>>, names0: seq<string>, cols0: map<string, seq<Cell<A>>>,
                         height: nat, joiner: string, keyFlag: string, show: A -> string, m: nat, i: nat)
    requires Traced(trace, names0, cols0, height, joiner, keyFlag, show)
    requires m < |Final(trace).subtables| && i < height
    ensures m < |Final(trace).keyLists|
    ensures var f, keys := Final(trace).subtables[m], Final(trace).keyLists[m];
            exists dependents :: && HasColumns(cols0, keys + dependents, height)
                                 && f == NewTable(cols0, height, keys, dependents, keyFlag)
                                 && RowKept(f, cols0, height, keys, dependents, i)
  {
    TracedLossless(trace, names0, cols0, height, joiner, keyFlag, show);
    var f, keys := Final(trace).subtables[m], Final(trace).keyLists[m];
    assert Lossless(cols0, height, keyFlag, f, keys);
    var dependents :| && HasColumns(cols0, keys + dependents, height)
                      && KeysDetermine(cols0, height, keys, dependents)
                      && f == NewTable(cols0, height, keys, dependents, keyFlag);
    SubtableLossless(cols0, height, keys, dependents, keyFlag, i);
  }

  /** One pass of the depth loop past its early exit: the round at `depth`
      extends the trace of the earlier rounds. */
  method Deepen<A(==)>(working: Table<A>, depth: nat, workingColumns: seq<string>, joiner: string, keyFlag: string,
                       show: A -> string, p: Progress<A>, ghost trace: seq<RoundTrace<A>>, ghost names0: seq<string>,
                       ghost cols0: map<string, seq<Cell<A>>>) returns (res: Result<Progress<A>>, ghost rt: RoundTrace<A>)
    requires working.Valid() && depth == |trace| + 1 && (depth > 1 ==> joiner != "")
    requires Consistent(p, working.height) && p == Final(trace)
    requires Traced(trace, names0, cols0, working.height, joiner, keyFlag, show)
    requires working.names == Without(names0, DroppedBy(trace))
    requires forall c :: c in working.names ==> c in cols0 && working.cols[c] == cols0[c]
    requires workingColumns == if depth > 1 then Without(working.names, Elems(p.constants) + Elems(p.uniques)) else []
    requires depth > 1 ==> |workingColumns| != depth
    modifies working
    ensures working.Valid() && working.height == old(working.height)
    ensures res.Ok? ==> Consistent(res.value, working.height) && res.value == Final(trace + [rt])
    ensures res.Ok? ==> Traced(trace + [rt], names0, cols0, working.height, joiner, keyFlag, show)
    ensures res.Ok? ==> working.names == Without(names0, DroppedBy(trace + [rt]))
    ensures res.Ok? ==> forall c :: c in working.names ==> c in cols0 && working.cols[c] == cols0[c]
    ensures res.KeyError? ==> TracedFailure(trace + [rt], names0, cols0, working.height, joiner, keyFlag, show, res.column)
  {
    ghost var names, cols := working.names, working.cols;
    res, rt := Round(working, depth, workingColumns, joiner, keyFlag, show, p);
    RoundStarted(trace, rt, names0, cols0, working.height, joiner, show, names, cols, workingColumns);
    if res.Ok? {
      NextRound(trace, rt, names0, cols0, working.height, joiner, keyFlag, show, names);
    } else {
      FailedRound(trace, rt, names0, cols0, working.height, joiner, keyFlag, show, res.column);
    }
  }

  /** Lines 91-133, the depth loop: rounds at depth 1, 2, ... while the
      depth is at most `maxDepth`, stopping early (line 95) once the working
      columns that are neither Constant nor Unique number exactly the depth.
      The trace records every round; the output is that of the last round,
      and the working table has lost exactly what the rounds removed and
      kept the values of the other columns. With `maxDepth` below 1 nothing
      happens. */
  method RunDepths<A(==)>(working: Table<A>, maxDepth: int, joiner: string, keyFlag: string, show: A -> string)
    returns (res: Result<Progress<A>>, ghost trace: seq<RoundTrace<A>>)
    requires working.Valid()
    requires maxDepth > 1 ==> joiner != ""
    modifies working
    ensures working.Valid() && working.height == old(working.height)
    ensures res.Ok? ==> Traced(trace, old(working.names), old(working.cols), old(working.height), joiner, keyFlag, show)
    ensures res.Ok? ==> res.value == Final(trace) && Consistent(res.value, working.height)
    ensures res.Ok? ==> working.names == Without(old(working.names), DroppedBy(trace))
    ensures res.Ok? ==> forall c :: c in working.names ==> c in old(working.cols) && working.cols[c] == old(working.cols)[c]
    ensures res.KeyError? ==>
              TracedFailure(trace, old(working.names), old(working.cols), old(working.height), joiner, keyFlag, show,
                            res.column)
    ensures maxDepth < 1 ==> res == Ok(Progress([], [], [], [], [])) && trace == [] && unchanged(working)
    ensures |trace| <= if maxDepth < 0 then 0 else maxDepth
    ensures res.Ok? && maxDepth >= 1 ==> |trace| >= 1
    ensures res.Ok? && |trace| < maxDepth ==>
              |Without(working.names, Elems(res.value.constants) + Elems(res.value.uniques))| == |trace| + 1
  {
    ghost var names0, cols0 := working.names, working.cols;
    var p: Progress<A> := Progress([], [], [], [], []);
    trace := [];
    WithoutNothing(names0, {});
    var depth := 1;
    while depth <= maxDepth
      invariant 1 <= depth && (depth == 1 || depth <= maxDepth + 1)
      invariant |trace| == depth - 1
      invariant depth == 1 ==> p == Progress([], [], [], [], []) && trace == [] && unchanged(working)
      invariant working.Valid() && working.height == old(working.height)
      invariant Consistent(p, working.height) && p == Final(trace)
      invariant Traced(trace, names0, cols0, working.height, joiner, keyFlag, show)
      invariant working.names == Without(names0, DroppedBy(trace))
      invariant forall c :: c in working.names ==> c in cols0 && working.cols[c] == cols0[c]
      decreases maxDepth - depth
    {
      var workingColumns := [];
      if depth > 1 {
        workingColumns := Without(working.names, Elems(p.constants) + Elems(p.uniques));
        if |workingColumns| == depth {
          break;
        }
      }
      var r, rt := Deepen(working, depth, workingColumns, joiner, keyFlag, show, p, trace, names0, cols0);
      if r.KeyError? {
        return KeyError(r.column), trace + [rt];
      }
      p := r.value;
      trace := trace + [rt];
      depth := depth + 1;
    }
    res := Ok(p);
  }

  /** Lines 135-139: the output of break_into_subtables, the residual table
      (the kept columns, key columns flagged) first, then the subtables;
      the schema lists every subtable's keys, and for the residual all of
      them in order. */
  function Assembled<A>(cols: map<string, seq<Cell<A>>>, height: nat, kept: seq<string>, out: Progress<A>,
                        keyFlag: string): (d: Decomposition<A>)
    requires HasColumns(cols, kept, height) && Consistent(out, height)
    ensures |d.tables| == |d.schema| >= 1
    ensures d.tables[0].names == Flag(kept, d.schema[0], keyFlag) && |d.tables[0].rows| == height
    ensures d.schema[0] == Concat(d.schema[1..])
    ensures forall i :: 1 <= i < |d.tables| ==> AllDistinct(d.tables[i].rows) && |d.tables[i].rows| <= height
  {
    var d := Decomposition([Frame(Flag(kept, out.foreignKeys, keyFlag), Project(cols, height, kept))] + out.subtables,
                           [out.foreignKeys] + out.keyLists);
    assert d.schema[1..] == out.keyLists;
    assert forall i :: 1 <= i < |d.tables| ==> d.tables[i] == out.subtables[i - 1];
    d
  }

  /** Lines 36-139, `break_into_subtables`: the depth loop runs on a copy of
      the input, which then, with its key columns flagged, becomes the
      first table. The trace records every pass on the copy: what it saw
      (input columns and the composites of its round), what it detected
      there and the column structure it extracted. The tables after the
      first are the subtables of those structures in extraction order, each
      with its key list in the schema; the first table keeps exactly the
      input columns that no round removed, in order and with their values,
      and its schema entry lists the key columns of all the others. */
  method BreakIntoSubtables<A(==)>(table: Table<A>, maxDepth: int, joiner: string, keyFlag: string,
                                   show: A -> string) returns (res: Result<Decomposition<A>>, ghost trace: seq<RoundTrace<A>>)
    requires table.Valid()
    requires maxDepth > 1 ==> joiner != ""
    ensures res.Ok? ==> Traced(trace, table.names, table.cols, table.height, joiner, keyFlag, show)
    ensures res.KeyError? ==> TracedFailure(trace, table.names, table.cols, table.height, joiner, keyFlag, show, res.column)
    ensures res.Ok? ==>
              var kept, out := Without(table.names, DroppedBy(trace)), Final(trace);
              HasColumns(table.cols, kept, table.height) &&
              res.value == Decomposition([Frame(Flag(kept, out.foreignKeys, keyFlag), Project(table.cols, table.height, kept))]
                                         + out.subtables, [out.foreignKeys] + out.keyLists)
    ensures res.Ok? ==> |res.value.tables| == |res.value.schema| >= 1
    ensures res.Ok? ==> res.value.schema[0] == Concat(res.value.schema[1..])
    ensures res.Ok? ==> forall i :: 1 <= i < |res.value.tables| ==>
              AllDistinct(res.value.tables[i].rows) && |res.value.tables[i].rows| <= table.height
    ensures res.Ok? ==> forall i :: 1 <= i < |res.value.tables| ==>
              Lossless(table.cols, table.height, keyFlag, res.value.tables[i], res.value.schema[i])
    ensures |trace| <= if maxDepth < 0 then 0 else maxDepth
    ensures res.Ok? && maxDepth >= 1 ==> |trace| >= 1
    ensures res.Ok? && |trace| < maxDepth ==>
              var kept, out := Without(table.names, DroppedBy(trace)), Final(trace);
              |Without(kept, Elems(out.constants) + Elems(out.uniques))| == |trace| + 1
    ensures maxDepth < 1 ==> res == Ok(Decomposition([Frame(table.names, Project(table.cols, table.height, table.names))], [[]]))
  {
    var working := new Table.Copy(table);
    var r;
    r, trace := RunDepths(working, maxDepth, joiner, keyFlag, show);
    if r.KeyError? {
      res := KeyError(r.column);
      return;
    }
    var p := r.value;
    ProjectSameOn(table.cols, working.cols, table.height, working.names);
    res := Ok(Assembled(working.cols, working.height, working.names, p, keyFlag));
    TracedLossless(trace, table.names, table.cols, table.height, joiner, keyFlag, show);
    PrependedLossless(Frame(Flag(working.names, p.foreignKeys, keyFlag), Project(working.cols, working.height, working.names)),
                      p.foreignKeys, p, keyFlag, table.cols, table.height);
    if maxDepth < 1 {
      AssembledAlone(table.cols, table.height, table.names, keyFlag);
    }
  }
}
