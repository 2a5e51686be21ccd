/**
  The slice of a pandas data frame that the radar app relies on: named columns
  of cells, all of the same length, and the column queries it makes
  (`unique()`, boolean filtering by equality, and the position of a row's index
  label among the rows that a filter keeps).
*/
module Frame {

  /** One cell of a frame: a number, a piece of text, or a missing value (NaN). */
  datatype Cell = Number(value: real) | Text(text: string) | Blank

  /** A frame stored column by column: every column holds one cell per row. */
  datatype Frame = Frame(columns: map<string, seq<Cell>>, length: nat) {
    predicate Valid() {
      forall c :: c in columns ==> |columns[c]| == length
    }
  }

  predicate Distinct<T(==)>(xs: seq<T>) {
    forall i, j :: 0 <= i < j < |xs| ==> xs[i] != xs[j]
  }

  /** `sub` can be obtained from `xs` by deleting elements: it keeps their order. */
  predicate IsSubsequence<T(==)>(sub: seq<T>, xs: seq<T>)
    decreases |xs|
  {
    if sub == [] then true
    else if xs == [] then false
    else if sub[0] == xs[0] then IsSubsequence(sub[1..], xs[1..])
    else IsSubsequence(sub, xs[1..])
  }

  /** Number of rows of `xs` equal to `x`: `len(data[data[col] == x])`. */
  function Count<T(==)>(xs: seq<T>, x: T): (n: nat)
    ensures n <= |xs|
    ensures n > 0 <==> x in xs
  {
    if xs == [] then 0
    else Count(xs[..|xs| - 1], x) + (if xs[|xs| - 1] == x then 1 else 0)
  }

  /** Count is the multiplicity of `x` among the rows. */
  lemma {:induction false} CountIsMultiplicity<T>(xs: seq<T>, x: T)
    ensures Count(xs, x) == multiset(xs)[x]
  {
    if xs != [] {
      CountIsMultiplicity(xs[..|xs| - 1], x);
      assert xs == xs[..|xs| - 1] + [xs[|xs| - 1]];
    }
  }

  /**
    The distinct values of `xs` in order of first appearance, as pandas'
    `Series.unique()` returns them (the order is stated by
    UniqueInFirstAppearanceOrder).
  */
  function Unique<T(==)>(xs: seq<T>): (u: seq<T>)
    ensures Distinct(u)
    ensures forall i :: 0 <= i < |u| ==> u[i] in xs
    ensures forall i :: 0 <= i < |xs| ==> xs[i] in u
  {
    if xs == [] then []
    else
      var prefix := xs[..|xs| - 1];
      var u := Unique(prefix);
      assert forall i :: 0 <= i < |xs| - 1 ==> xs[i] == prefix[i];
      if xs[|xs| - 1] in u then u else u + [xs[|xs| - 1]]
  }

  /** Extending a sequence does not move the first occurrence of a value it already held. */
  lemma IndexOfPrefix<T>(xs: seq<T>, n: nat, x: T)
    requires n <= |xs| && x in xs[..n]
    ensures IndexOf(xs, x) == IndexOf(xs[..n], x)
  {
    var i := IndexOf(xs[..n], x);
    var k := IndexOf(xs, x);
    assert xs[..n][..i] == xs[..i];
  }

  /** `Unique` lists the distinct values in the order in which each first appears. */
  lemma {:induction false} UniqueInFirstAppearanceOrder<T>(xs: seq<T>)
    ensures forall i, j :: 0 <= i < j < |Unique(xs)| ==> IndexOf(xs, Unique(xs)[i]) < IndexOf(xs, Unique(xs)[j])
  {
    if xs != [] {
      var n := |xs| - 1;
      var prefix := xs[..n];
      var u := Unique(prefix);
      UniqueInFirstAppearanceOrder(prefix);
      forall i | 0 <= i < |u|
        ensures IndexOf(xs, u[i]) == IndexOf(prefix, u[i]) < n
      {
        IndexOfPrefix(xs, n, u[i]);
      }
      var all := Unique(xs);
      if xs[n] in u {
        assert all == u;
      } else {
        assert all == u + [xs[n]];
        assert xs[n] !in prefix;
        assert IndexOf(xs, xs[n]) == n;
        forall i, j | 0 <= i < j < |all|
          ensures IndexOf(xs, all[i]) < IndexOf(xs, all[j])
        {
          assert all[i] == u[i];
          if j < |u| {
            assert all[j] == u[j];
          }
        }
      }
    }
  }

  /**
    The position of row `r` among the rows that hold the same value as it:
    with unique index labels this is
    `list(data[data[col] == xs[r]].index).index(r)`.
  */
  function Rank<T(==)>(xs: seq<T>, r: nat): (k: nat)
    requires r < |xs|
    ensures k < Count(xs, xs[r])
  {
    CountPrefix(xs, r + 1, xs[r]);
    assert xs[..r + 1][..r] == xs[..r];
    Count(xs[..r], xs[r])
  }

  /** The rows holding `x`, in row order: the index of `data[data[col] == x]`. */
  function MemberRows<T(==)>(xs: seq<T>, x: T): (rows: seq<nat>)
    ensures |rows| == Count(xs, x)
    ensures forall i :: 0 <= i < |rows| ==> rows[i] < |xs| && xs[rows[i]] == x
    ensures forall i, j :: 0 <= i < j < |rows| ==> rows[i] < rows[j]
  {
    if xs == [] then []
    else
      var rows := MemberRows(xs[..|xs| - 1], x);
      if xs[|xs| - 1] == x then rows + [|xs| - 1] else rows
  }

  /** Counting over a prefix never exceeds counting over the whole. */
  lemma {:induction false} CountPrefix<T>(xs: seq<T>, n: nat, x: T)
    requires n <= |xs|
    ensures Count(xs[..n], x) <= Count(xs, x)
  {
    if n < |xs| {
      CountPrefix(xs[..|xs| - 1], n, x);
      assert xs[..|xs| - 1][..n] == xs[..n];
    } else {
      assert xs[..n] == xs;
    }
  }

  /**
    Rank models the lookup of a row's index label in its segment's member list:
    the Rank(xs, r)-th member row of xs[r]'s group is r itself.
  */
  lemma {:induction false} RankLocatesRow<T>(xs: seq<T>, r: nat)
    requires r < |xs|
    ensures Rank(xs, r) < |MemberRows(xs, xs[r])|
    ensures MemberRows(xs, xs[r])[Rank(xs, r)] == r
  {
    var last := |xs| - 1;
    var prefix := xs[..last];
    if r == last {
      assert prefix == xs[..r];
      assert MemberRows(xs, xs[r]) == MemberRows(prefix, xs[r]) + [r];
    } else {
      RankLocatesRow(prefix, r);
      assert prefix[r] == xs[r];
      assert prefix[..r] == xs[..r];
      assert MemberRows(prefix, xs[r]) <= MemberRows(xs, xs[r]);
    }
  }

  /** Two different rows of the same group never share a rank. */
  lemma RankInjective<T>(xs: seq<T>, r1: nat, r2: nat)
    requires r1 < r2 < |xs| && xs[r1] == xs[r2]
    ensures Rank(xs, r1) < Rank(xs, r2)
  {
    RankLocatesRow(xs, r1);
    RankLocatesRow(xs, r2);
  }

  /**
    The lookup of a row's label among the labels of its group's rows finds
    the row at its rank.
  */
  lemma RankIsIndexOf<T>(xs: seq<T>, r: nat)
    requires r < |xs|
    ensures r in MemberRows(xs, xs[r])
    ensures IndexOf(MemberRows(xs, xs[r]), r) == Rank(xs, r)
  {
    RankLocatesRow(xs, r);
    assert Distinct(MemberRows(xs, xs[r]));
  }

  /**
    Position of the first occurrence of `x` in `xs`, as Python's `list.index`
    finds it; in a sequence without repeats it is the only one.
  */
  function IndexOf<T(==)>(xs: seq<T>, x: T): (i: nat)
    requires x in xs
    ensures i < |xs| && xs[i] == x && x !in xs[..i]
    ensures Distinct(xs) ==> forall j :: 0 <= j < |xs| && xs[j] == x ==> j == i
  {
    if x in xs[..|xs| - 1] then IndexOf(xs[..|xs| - 1], x) else |xs| - 1
  }
}
