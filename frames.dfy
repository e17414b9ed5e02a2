/** The data frame the profiler reads, and the Polars primitives the analyzers call on it. */
module Frames {
  import opened Basics

  /** How the column selectors classify a column's dtype: `cs.numeric()` picks Numeric,
      `cs.string(include_categorical=True)` picks Categorical, everything else is Other. */
  datatype Kind = Numeric | Categorical | Other

  /** A column's entries, tagged by kind; `None` is a missing (null) entry.
      Entries of other dtypes (booleans, dates, nested values) are never inspected by
      value, so an integer code stands for each of them. */
  datatype Cells =
    | NumericCells(nums: seq<Option<real>>)
    | StringCells(strs: seq<Option<string>>)
    | OtherCells(codes: seq<Option<int>>)

  datatype Column = Column(name: string, cells: Cells)

  /** A data frame: `height` rows and the columns in `df.columns` order. */
  datatype Frame = Frame(height: nat, columns: seq<Column>)

  function KindOf(c: Column): Kind {
    match c.cells
    case NumericCells(_) => Numeric
    case StringCells(_) => Categorical
    case OtherCells(_) => Other
  }

  function Length(c: Column): nat {
    match c.cells
    case NumericCells(xs) => |xs|
    case StringCells(xs) => |xs|
    case OtherCells(xs) => |xs|
  }

  /** `df.columns`. */
  function Names(cols: seq<Column>): seq<string> {
    seq(|cols|, i requires 0 <= i < |cols| => cols[i].name)
  }

  /** What Polars guarantees of every frame: it is rectangular and its column names are unique. */
  predicate Valid(df: Frame) {
    && (forall i :: 0 <= i < |df.columns| ==> Length(df.columns[i]) == df.height)
    && (forall i, j :: 0 <= i < j < |df.columns| ==> df.columns[i].name != df.columns[j].name)
  }

  // ---------------------------------------------------------------------------
  // Polars primitives over one column

  /** The number of entries equal to `v`. */
  function Count<T(==)>(xs: seq<T>, v: T): (n: nat)
    ensures n <= |xs|
    ensures n > 0 <==> v in xs
  {
    if xs == [] then 0
    else
      var init := xs[..|xs| - 1];
      assert xs == init + [xs[|xs| - 1]];
      Count(init, v) + if xs[|xs| - 1] == v then 1 else 0
  }

  /** `null_count()`: the number of missing entries. */
  function NullCount<T(==)>(xs: seq<Option<T>>): (n: nat)
    ensures n == Count(xs, None)
    ensures n <= |xs|
    ensures n == 0 <==> forall i :: 0 <= i < |xs| ==> xs[i].Some?
  {
    if xs == [] then 0
    else NullCount(xs[..|xs| - 1]) + if xs[|xs| - 1].None? then 1 else 0
  }

  function ColumnNullCount(c: Column): (n: nat)
    ensures n <= Length(c)
  {
    match c.cells
    case NumericCells(xs) => NullCount(xs)
    case StringCells(xs) => NullCount(xs)
    case OtherCells(xs) => NullCount(xs)
  }

  /** A column's null count is the number of its missing entries, whatever its kind. */
  lemma ColumnNullCountIsCount(c: Column)
    ensures c.cells.NumericCells? ==> ColumnNullCount(c) == Count(c.cells.nums, None)
    ensures c.cells.StringCells? ==> ColumnNullCount(c) == Count(c.cells.strs, None)
    ensures c.cells.OtherCells? ==> ColumnNullCount(c) == Count(c.cells.codes, None)
  {
  }

  /** The set of values a column holds, a missing entry counting as one more value. */
  function Distinct<T(==,!new)>(xs: seq<T>): (s: set<T>)
    ensures forall v :: v in s <==> v in xs
    ensures |s| <= |xs|
    ensures |xs| > 0 ==> |s| > 0
  {
    if xs == [] then {}
    else
      var init := xs[..|xs| - 1];
      assert xs == init + [xs[|xs| - 1]];
      Distinct(init) + {xs[|xs| - 1]}
  }

  /** `n_unique()` on a one-column frame: null is counted as a value. */
  function NUnique<T(==,!new)>(xs: seq<T>): (n: nat)
    ensures n <= |xs|
    ensures |xs| > 0 ==> n > 0
  {
    |Distinct(xs)|
  }

  /** The position, among the first k, of the entry whose value has the largest count
      in xs; every earlier position holds a value of strictly smaller count. */
  function LeaderAmong<T(==)>(xs: seq<T>, k: nat): (i: nat)
    requires 0 < k <= |xs|
    ensures i < k
    ensures forall j :: 0 <= j < k ==> Count(xs, xs[j]) <= Count(xs, xs[i])
    ensures forall j :: 0 <= j < i ==> Count(xs, xs[j]) < Count(xs, xs[i])
  {
    if k == 1 then 0
    else
      var best := LeaderAmong(xs, k - 1);
      if Count(xs, xs[k - 1]) > Count(xs, xs[best]) then k - 1 else best
  }

  /** The first row of `value_counts().sort(by="count", descending=True)`: a most frequent
      value. Polars leaves the order of equally frequent values open; this model takes the
      one whose first occurrence comes first in the column (see ModeTieBreak). */
  function Mode<T(==,!new)>(xs: seq<T>): (m: T)
    requires |xs| > 0
    ensures m in xs
    ensures forall v :: Count(xs, v) <= Count(xs, m)
  {
    var m := xs[LeaderAmong(xs, |xs|)];
    assert forall v :: Count(xs, v) <= Count(xs, m) by {
      forall v | v in xs ensures Count(xs, v) <= Count(xs, m) {
        var j :| 0 <= j < |xs| && xs[j] == v;
      }
    }
    m
  }

  /** The position of the first occurrence of `v`. */
  function FirstIndex<T(==)>(xs: seq<T>, v: T): (i: nat)
    requires v in xs
    ensures i < |xs| && xs[i] == v
    ensures forall j :: 0 <= j < i ==> xs[j] != v
  {
    if xs[0] == v then 0 else 1 + FirstIndex(xs[1..], v)
  }

  /** The tie-break of Mode: every value met before the mode's first occurrence is
      strictly less frequent than the mode. */
  lemma ModeTieBreak<T(!new)>(xs: seq<T>)
    requires |xs| > 0
    ensures forall j :: 0 <= j < FirstIndex(xs, Mode(xs)) ==> Count(xs, xs[j]) < Count(xs, Mode(xs))
  {
    var i := LeaderAmong(xs, |xs|);
    assert FirstIndex(xs, Mode(xs)) <= i;
  }

  /** `xs` with every entry equal to `v` removed. */
  function Without<T(==)>(xs: seq<T>, v: T): seq<T> {
    if xs == [] then []
    else Without(xs[..|xs| - 1], v) + if xs[|xs| - 1] == v then [] else [xs[|xs| - 1]]
  }

  lemma {:induction false} WithoutCounts<T>(xs: seq<T>, v: T, w: T)
    ensures |Without(xs, v)| == |xs| - Count(xs, v)
    ensures Count(Without(xs, v), w) == if w == v then 0 else Count(xs, w)
  {
    if xs != [] {
      var init := xs[..|xs| - 1];
      var last := xs[|xs| - 1];
      var rest := Without(init, v);
      WithoutCounts(init, v, w);
      assert Count(xs, w) == Count(init, w) + if last == w then 1 else 0;
      assert Count(xs, v) == Count(init, v) + if last == v then 1 else 0;
      if last != v {
        var ys := rest + [last];
        assert Without(xs, v) == ys;
        assert ys[..|ys| - 1] == rest;
        assert Count(ys, w) == Count(rest, w) + if last == w then 1 else 0;
      } else {
        assert Without(xs, v) == rest;
      }
    }
  }

  lemma DistinctWithout<T(!new)>(xs: seq<T>, v: T)
    requires v in xs
    ensures |Distinct(Without(xs, v))| == |Distinct(xs)| - 1
  {
    var ys := Without(xs, v);
    forall w ensures w in Distinct(ys) <==> w in Distinct(xs) - {v} {
      WithoutCounts(xs, v, w);
    }
    assert Distinct(ys) == Distinct(xs) - {v};
  }

  lemma WithoutKeepsBound<T>(xs: seq<T>, v: T, b: nat)
    requires forall w :: Count(xs, w) <= b
    ensures forall w :: Count(Without(xs, v), w) <= b
  {
    forall w ensures Count(Without(xs, v), w) <= b {
      WithoutCounts(xs, v, w);
    }
  }

  /** If no value occurs more than b times, there are at least |xs| / b distinct values. */
  lemma {:induction false} LengthBoundedByCounts<T(!new)>(xs: seq<T>, b: nat)
    requires forall v :: Count(xs, v) <= b
    ensures |xs| <= |Distinct(xs)| * b
    decreases |xs|
  {
    if xs != [] {
      var v := xs[0];
      var ys := Without(xs, v);
      WithoutCounts(xs, v, v);
      WithoutKeepsBound(xs, v, b);
      LengthBoundedByCounts(ys, b);
      DistinctWithout(xs, v);
      AddOneShare(|ys|, Count(xs, v), |Distinct(ys)|, b);
    }
  }

  lemma AddOneShare(rest: nat, share: nat, groups: nat, b: nat)
    requires rest <= groups * b && share <= b
    ensures rest + share <= (groups + 1) * b
  {
  }

  /** The mode occurs at least |xs| / n_unique times: frequency * n_unique >= |xs|. */
  lemma ModeFrequencyBound<T(!new)>(xs: seq<T>)
    requires |xs| > 0
    ensures |xs| <= NUnique(xs) * Count(xs, Mode(xs))
  {
    LengthBoundedByCounts(xs, Count(xs, Mode(xs)));
  }

  /** `max()` of a numeric column: the largest present value, None when every entry is missing. */
  function MaxOf(xs: seq<Option<real>>): (m: Option<real>)
    ensures m.None? <==> forall i :: 0 <= i < |xs| ==> xs[i].None?
    ensures m.Some? ==> m in xs && forall i :: 0 <= i < |xs| && xs[i].Some? ==> xs[i].value <= m.value
  {
    if xs == [] then None
    else
      var rest := MaxOf(xs[..|xs| - 1]);
      var last := xs[|xs| - 1];
      assert xs == xs[..|xs| - 1] + [last];
      if last.None? then rest
      else if rest.None? || rest.value < last.value then last
      else rest
  }

  /** `min()` of a numeric column: the smallest present value, None when every entry is missing. */
  function MinOf(xs: seq<Option<real>>): (m: Option<real>)
    ensures m.None? <==> forall i :: 0 <= i < |xs| ==> xs[i].None?
    ensures m.Some? ==> m in xs && forall i :: 0 <= i < |xs| && xs[i].Some? ==> m.value <= xs[i].value
  {
    if xs == [] then None
    else
      var rest := MinOf(xs[..|xs| - 1]);
      var last := xs[|xs| - 1];
      assert xs == xs[..|xs| - 1] + [last];
      if last.None? then rest
      else if rest.None? || last.value < rest.value then last
      else rest
  }

  // ---------------------------------------------------------------------------
  // Column selectors

  /** The positions of the columns of kind `k`, in increasing order. */
  function IndicesOfKind(cols: seq<Column>, k: Kind): (ix: seq<nat>)
    ensures forall j :: 0 <= j < |ix| ==> ix[j] < |cols| && KindOf(cols[ix[j]]) == k
    ensures forall j1, j2 :: 0 <= j1 < j2 < |ix| ==> ix[j1] < ix[j2]
    ensures forall i :: 0 <= i < |cols| && KindOf(cols[i]) == k ==> i in ix
  {
    if cols == [] then []
    else
      var n := |cols| - 1;
      var p := IndicesOfKind(cols[..n], k);
      if KindOf(cols[n]) == k then p + [n] else p
  }

  /** `df.select(cs.numeric())` / `df.select(cs.string(include_categorical=True))`: the
      columns of kind `k`, in frame order. */
  function SelectKind(cols: seq<Column>, k: Kind): (sel: seq<Column>)
    ensures forall j :: 0 <= j < |sel| ==> KindOf(sel[j]) == k
  {
    var ix := IndicesOfKind(cols, k);
    seq(|ix|, j requires 0 <= j < |ix| => cols[ix[j]])
  }

  /** SelectKind keeps exactly the columns of kind `k`: entry j is the frame column at the
      j-th selected position, and a column is selected iff it has kind `k`. */
  lemma SelectKindIsFilter(cols: seq<Column>, k: Kind)
    ensures |SelectKind(cols, k)| == |IndicesOfKind(cols, k)|
    ensures forall j :: 0 <= j < |SelectKind(cols, k)| ==> SelectKind(cols, k)[j] == cols[IndicesOfKind(cols, k)[j]]
    ensures forall c :: c in SelectKind(cols, k) <==> c in cols && KindOf(c) == k
  {
    var ix := IndicesOfKind(cols, k);
    var sel := SelectKind(cols, k);
    forall c | c in cols && KindOf(c) == k ensures c in sel {
      var i :| 0 <= i < |cols| && cols[i] == c;
      var j :| 0 <= j < |ix| && ix[j] == i;
      assert sel[j] == c;
    }
  }
}
