/** Datatypes and counting lemmas shared by every component. */
module Common {

  datatype Option<+T> = None | Some(value: T)

  datatype Result<+T, +E> = Ok(value: T) | Err(error: E)

  /** Database keys. Only equality of keys matters to any theorem. */
  type Uuid = nat

  ghost predicate Distinct<T>(s: seq<T>) {
    forall i, j :: 0 <= i < j < |s| ==> s[i] != s[j]
  }

  /** The integers from `lo` up to, and not including, `hi`. */
  ghost function Between(lo: int, hi: int): (s: set<int>)
    ensures forall x :: x in s <==> lo <= x < hi
    decreases hi - lo
  {
    if lo < hi then Between(lo, hi - 1) + {hi - 1} else {}
  }

  lemma {:induction false} BetweenSize(lo: int, hi: int)
    requires lo <= hi
    ensures |Between(lo, hi)| == hi - lo
    decreases hi - lo
  {
    if lo < hi {
      BetweenSize(lo, hi - 1);
    }
  }

  ghost function Elements<T>(s: seq<T>): set<T> {
    set x | x in s
  }

  lemma {:induction false} DistinctSize<T>(s: seq<T>)
    requires Distinct(s)
    ensures |Elements(s)| == |s|
  {
    if s != [] {
      var front := s[..|s| - 1];
      DistinctSize(front);
      assert s == front + [s[|s| - 1]];
      assert Elements(s) == Elements(front) + {s[|s| - 1]};
    }
  }

  lemma SubsetOfEqualSize<T>(a: set<T>, b: set<T>)
    requires a <= b && |a| == |b|
    ensures a == b
  {
    assert b == a + (b - a);
    assert |b| == |a| + |b - a|;
  }

  /** Pigeonhole: `n` distinct numbers drawn from `1..n` are all of `1..n`. */
  lemma DistinctFillsRange(s: seq<int>)
    requires Distinct(s)
    requires forall i :: 0 <= i < |s| ==> 1 <= s[i] <= |s|
    ensures forall x :: 1 <= x <= |s| ==> x in s
  {
    DistinctSize(s);
    BetweenSize(1, |s| + 1);
    assert Elements(s) <= Between(1, |s| + 1);
    SubsetOfEqualSize(Elements(s), Between(1, |s| + 1));
    forall x | 1 <= x <= |s|
      ensures x in s
    {
      assert x in Elements(s);
    }
  }

  // ---------------------------------------------------------------- columns and extremes

  /** One integer column of a table. */
  function Column<T>(f: T -> int, rows: seq<T>): (values: seq<int>)
    ensures |values| == |rows|
    ensures forall i :: 0 <= i < |rows| ==> values[i] == f(rows[i])
  {
    seq(|rows|, i requires 0 <= i < |rows| => f(rows[i]))
  }

  lemma ColumnMembers<T>(f: T -> int, rows: seq<T>, v: int)
    ensures v in Column(f, rows) <==> exists i :: 0 <= i < |rows| && f(rows[i]) == v
  {
    if i :| 0 <= i < |rows| && f(rows[i]) == v {
      assert Column(f, rows)[i] == v;
    }
  }

  function Least(values: seq<int>): (m: int)
    requires values != []
    ensures m in values
    ensures forall i :: 0 <= i < |values| ==> m <= values[i]
  {
    if |values| == 1 then values[0]
    else
      var rest := Least(values[1..]);
      assert values == [values[0]] + values[1..];
      if rest < values[0] then rest else values[0]
  }

  function Greatest(values: seq<int>): (m: int)
    requires values != []
    ensures m in values
    ensures forall i :: 0 <= i < |values| ==> values[i] <= m
  {
    if |values| == 1 then values[0]
    else
      var rest := Greatest(values[1..]);
      assert values == [values[0]] + values[1..];
      if rest > values[0] then rest else values[0]
  }
}
