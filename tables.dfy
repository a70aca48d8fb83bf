/** The table the decomposition works on: ordered, uniquely named columns of
    equal length, updated in place (columns are added and dropped). Cells are
    either input values or the text of a composite column; the conversion of
    an input value to text (Python's `str`) is a parameter `show`. */
module Tables {
  import opened Counting
  import opened Classifier

  datatype Option<T> = None | Some(value: T)

  /** A cell: an input value, or text produced by a composite column. */
  datatype Cell<A> = Value(v: A) | Text(s: string)

  /** Python's `str(cell)`: text stays as it is, input values go through show. */
  function Str<A>(c: Cell<A>, show: A -> string): string {
    match c
    case Value(v) => show(v)
    case Text(s) => s
  }

  /** `joiner.join(parts)`. */
  function Join(joiner: string, parts: seq<string>): string {
    if |parts| == 0 then ""
    else if |parts| == 1 then parts[0]
    else parts[0] + joiner + Join(joiner, parts[1..])
  }

  /** k copies of s. */
  function Repeat(s: string, k: nat): string {
    if k == 0 then "" else Repeat(s, k - 1) + s
  }

  lemma {:induction false} RepeatLength(s: string, k: nat)
    ensures |Repeat(s, k)| == k * |s|
  {
    if k > 0 {
      RepeatLength(s, k - 1);
    }
  }

  /** The length of the longest name. */
  function MaxLength(names: seq<string>): (m: nat)
    ensures forall c :: c in names ==> |c| <= m
  {
    if |names| == 0 then 0
    else
      var rest := MaxLength(names[1..]);
      assert forall c :: c in names ==> c == names[0] || c in names[1..];
      if |names[0]| > rest then |names[0]| else rest
  }

  /** The name-picking loop of `add_composite_column`: append the joiner to
      base until the name is unused. The source loops forever when the joiner
      is empty and base is taken, so that call is excluded. */
  method FreshName(names: seq<string>, base: string, joiner: string) returns (name: string, ghost k: nat)
    requires joiner != "" || base !in names
    ensures name !in names
    ensures name == base + Repeat(joiner, k)
    ensures forall j :: 0 <= j < k ==> base + Repeat(joiner, j) in names
  {
    name, k := base, 0;
    assert base + Repeat(joiner, 0) == base;
    while name in names
      invariant name == base + Repeat(joiner, k)
      invariant forall j :: 0 <= j < k ==> base + Repeat(joiner, j) in names
      invariant joiner == "" ==> name == base
      decreases MaxLength(names) + 1 - |name|
    {
      RepeatStep(base, joiner, k);
      assert joiner != "";
      LongerThanAll(names, name, joiner);
      name, k := name + joiner, k + 1;
    }
  }

  /** A listed name is no longer than the longest one, and appending a
      non-empty joiner makes it longer. */
  lemma LongerThanAll(names: seq<string>, name: string, joiner: string)
    requires name in names && joiner != ""
    ensures |name| <= MaxLength(names) && |name| < |name + joiner|
  {
  }

  lemma RepeatStep(base: string, s: string, k: nat)
    ensures base + Repeat(s, k + 1) == (base + Repeat(s, k)) + s
  {
  }

  /** All listed columns exist and have the given height. */
  ghost predicate HasColumns<A>(cols: map<string, seq<Cell<A>>>, columns: seq<string>, height: nat) {
    forall c :: c in columns ==> c in cols && |cols[c]| == height
  }

  /** The composite value of row i: the joiner-join of the stringified
      values of the listed columns in that row. */
  function CompositeCell<A>(cols: map<string, seq<Cell<A>>>, columns: seq<string>, i: nat,
                            joiner: string, show: A -> string): string
    requires forall c :: c in columns ==> c in cols && i < |cols[c]|
  {
    Join(joiner, seq(|columns|, k requires 0 <= k < |columns| => Str(cols[columns[k]][i], show)))
  }

  function CompositeColumn<A>(cols: map<string, seq<Cell<A>>>, columns: seq<string>, height: nat,
                              joiner: string, show: A -> string): seq<Cell<A>>
    requires HasColumns(cols, columns, height)
  {
    seq(height, i requires 0 <= i < height => Text(CompositeCell(cols, columns, i, joiner, show)))
  }

  /** Rows i and j carry the same values in all the listed columns. */
  ghost predicate AgreeOn<A>(cols: map<string, seq<Cell<A>>>, columns: seq<string>, i: nat, j: nat)
    requires forall c :: c in columns ==> c in cols && i < |cols[c]| && j < |cols[c]|
  {
    forall c :: c in columns ==> cols[c][i] == cols[c][j]
  }

  /** A composite column is a sound test for a multi-column determinant: if
      the composite determines ys, then rows that agree on every component
      agree on ys. */
  lemma CompositeDeterminantSound<A>(cols: map<string, seq<Cell<A>>>, columns: seq<string>, height: nat,
                                     joiner: string, show: A -> string, ys: seq<Cell<A>>)
    requires HasColumns(cols, columns, height) && |ys| == height
    requires Determines(CompositeColumn(cols, columns, height, joiner, show), ys)
    ensures forall i, j :: 0 <= i < height && 0 <= j < height && AgreeOn(cols, columns, i, j) ==> ys[i] == ys[j]
  {
    var comp := CompositeColumn(cols, columns, height, joiner, show);
    forall i, j | 0 <= i < height && 0 <= j < height && AgreeOn(cols, columns, i, j)
      ensures ys[i] == ys[j]
    {
      var pi := seq(|columns|, k requires 0 <= k < |columns| => Str(cols[columns[k]][i], show));
      var pj := seq(|columns|, k requires 0 <= k < |columns| => Str(cols[columns[k]][j], show));
      assert pi == pj by {
        forall k | 0 <= k < |columns| ensures pi[k] == pj[k] {
          assert columns[k] in columns;
        }
      }
      assert comp[i] == comp[j];
    }
  }

  datatype Result<T> = Ok(value: T) | KeyError(column: string)

  /** Filtering col out of one more name of s. */
  lemma WithoutSnoc(s: seq<string>, k: nat, col: string)
    requires k < |s|
    ensures Without(s[..k + 1], {col}) == Without(s[..k], {col}) + (if s[k] == col then [] else [s[k]])
  {
    assert s[..k + 1] == s[..k] + [s[k]];
    WithoutConcat(s[..k], [s[k]], {col});
    assert Without([s[k]], {col}) == if s[k] == col then [] else [s[k]];
  }

  /** The dict `characterize_column_relationships` returns: its keys in
      insertion order, and the relationship stored under each. */
  datatype RelationshipDict = RelationshipDict(keys: seq<string>, values: map<string, Relationship>)

  /** What a table holds at one moment: its column names in order, its
      columns and its number of rows. */
  datatype Contents<A(==)> = Contents(names: seq<string>, cols: map<string, seq<Cell<A>>>, height: nat)
  {
    /** Names are unique, every name has a column and every column has
        `height` cells. */
    ghost predicate Valid() {
      && AllDistinct(names)
      && (forall c :: c in names ==> c in cols)
      && (forall c :: c in cols ==> c in names)
      && (forall c :: c in cols ==> |cols[c]| == height)
    }

    /** `characterize_column_relationship(x, y)`: how column x relates to
        column y. */
    function CharacterizeColumnRelationship(x: string, y: string): Relationship
      requires Valid() && x in names && y in names
    {
      Classify(cols[x], cols[y])
    }
  }

  class Table<A(==)> {
    var names: seq<string>
    var cols: map<string, seq<Cell<A>>>
    var height: nat

    /** The table's contents as they are now. */
    function Value(): Contents<A>
      reads this
    {
      Contents(names, cols, height)
    }

    ghost predicate Valid()
      reads this
    {
      Value().Valid()
    }

    constructor (names: seq<string>, cols: map<string, seq<Cell<A>>>, height: nat)
      requires AllDistinct(names)
      requires forall c :: c in names <==> c in cols
      requires forall c :: c in cols ==> |cols[c]| == height
      ensures Valid()
      ensures this.names == names && this.cols == cols && this.height == height
    {
      this.names, this.cols, this.height := names, cols, height;
    }

    /** `self.copy()`. */
    constructor Copy(source: Table<A>)
      requires source.Valid()
      ensures Valid()
      ensures names == source.names && cols == source.cols && height == source.height
    {
      names, cols, height := source.names, source.cols, source.height;
    }

    /** `characterize_column_relationship(x, y)`, on the table as it is now. */
    function CharacterizeColumnRelationship(x: string, y: string): Relationship
      reads this
      requires Valid() && x in names && y in names
    {
      Value().CharacterizeColumnRelationship(x, y)
    }

    /** `characterize_column_relationships(col)`: the relationship of col to
        every other column, keyed by the other column, the keys in column
        order. */
    method CharacterizeColumnRelationships(col: string) returns (r: RelationshipDict)
      requires Valid() && col in names
      ensures r.keys == Without(names, {col})
      ensures forall y :: y in r.values <==> y in r.keys
      ensures forall y :: y in r.values ==> r.values[y] == CharacterizeColumnRelationship(col, y)
    {
      var columns := names;
      r := RelationshipDict([], map[]);
      var k := 0;
      while k < |columns|
        invariant 0 <= k <= |columns|
        invariant r.keys == Without(columns[..k], {col})
        invariant forall y :: y in r.values <==> y in r.keys
        invariant forall y :: y in r.values ==> r.values[y] == CharacterizeColumnRelationship(col, y)
      {
        var y := columns[k];
        WithoutSnoc(columns, k, col);
        if y != col {
          r := RelationshipDict(r.keys + [y], r.values[y := CharacterizeColumnRelationship(col, y)]);
        }
        k := k + 1;
      }
      assert columns[..k] == columns;
    }

    /** `get_unique_column_pairs(x, y)` without `as_dict`: the distinct
        (x, y) rows, first occurrences kept; their number is the pair count
        the classifier compares. */
    function GetUniqueColumnPairs(x: string, y: string): (r: seq<(Cell<A>, Cell<A>)>)
      reads this
      requires Valid() && x in names && y in names
      ensures AllDistinct(r)
      ensures forall i :: 0 <= i < height ==> (cols[x][i], cols[y][i]) in r
      ensures forall p :: p in r ==> exists i :: 0 <= i < height && p == (cols[x][i], cols[y][i])
      ensures |r| == DistinctCount(Zip(cols[x], cols[y]))
    {
      var z := Zip(cols[x], cols[y]);
      DedupLength(z);
      assert forall i :: 0 <= i < height ==> z[i] in z && z[i] == (cols[x][i], cols[y][i]);
      assert forall p :: p in z ==> exists i :: 0 <= i < height && z[i] == p;
      Dedup(z)
    }

    /** `add_composite_column(columns, name, joiner)`: adds one column whose
        value in each row is the joiner-join of the stringified values of the
        listed columns; its name is the given name (default: the joiner-join
        of the column names) followed by as many joiners as it takes to be
        unused. */
    method AddCompositeColumn(columns: seq<string>, name: Option<string>, joiner: string, show: A -> string)
      returns (r: string)
      requires Valid()
      requires forall c :: c in columns ==> c in names
      requires joiner != "" || (if name.Some? then name.value else Join(joiner, columns)) !in names
      modifies this
      ensures Valid()
      ensures r !in old(names)
      ensures exists k: nat :: r == (if name.Some? then name.value else Join(joiner, columns)) + Repeat(joiner, k)
      ensures names == old(names) + [r]
      ensures height == old(height)
      ensures forall c :: c in old(names) ==> c in cols && cols[c] == old(cols[c])
      ensures HasColumns(old(cols), columns, height)
      ensures r in cols && cols[r] == CompositeColumn(old(cols), columns, height, joiner, show)
    {
      var base := if name.Some? then name.value else Join(joiner, columns);
      ghost var k;
      r, k := FreshName(names, base, joiner);
      var column := CompositeColumn(cols, columns, height, joiner, show);
      cols := cols[r := column];
      names := names + [r];
      assert AllDistinct(names) by {
        forall i, j | 0 <= i < j < |names| ensures names[i] != names[j] {
          if j == |names| - 1 {
            assert names[i] in old(names);
          } else {
            assert names[i] == old(names)[i] && names[j] == old(names)[j];
          }
        }
      }
    }

    /** `drop(c, axis=1, inplace=True)` for a column that exists. */
    method Drop(c: string)
      requires Valid() && c in names
      modifies this
      ensures Valid()
      ensures names == Without(old(names), {c})
      ensures cols == old(cols) - {c}
      ensures height == old(height)
    {
      names := Without(names, {c});
      cols := cols - {c};
    }
  }
}
