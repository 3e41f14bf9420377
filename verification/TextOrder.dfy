/** Python's ordering of strings and of tuples of strings, and sorting by such a key. */
module TextOrder {

  predicate TextLess(a: string, b: string) {
    if b == [] then false
    else if a == [] then true
    else if a[0] != b[0] then a[0] < b[0]
    else TextLess(a[1..], b[1..])
  }

  type Key = seq<string>

  predicate KeyLess(a: Key, b: Key) {
    if b == [] then false
    else if a == [] then true
    else if a[0] != b[0] then TextLess(a[0], b[0])
    else KeyLess(a[1..], b[1..])
  }

  lemma {:induction false} TextTotal(a: string, b: string)
    ensures a == b || TextLess(a, b) || TextLess(b, a)
    ensures !(TextLess(a, b) && TextLess(b, a))
  {
    if a != [] && b != [] && a[0] == b[0] {
      TextTotal(a[1..], b[1..]);
      assert a == [a[0]] + a[1..] && b == [b[0]] + b[1..];
    }
  }

  lemma {:induction false} TextTransitive(a: string, b: string, c: string)
    requires TextLess(a, b) && TextLess(b, c)
    ensures TextLess(a, c)
  {
    if a != [] && a[0] == b[0] == c[0] {
      TextTransitive(a[1..], b[1..], c[1..]);
    }
  }

  lemma {:induction false} KeyTotal(a: Key, b: Key)
    ensures a == b || KeyLess(a, b) || KeyLess(b, a)
    ensures !(KeyLess(a, b) && KeyLess(b, a))
  {
    if a != [] && b != [] {
      TextTotal(a[0], b[0]);
      if a[0] == b[0] {
        KeyTotal(a[1..], b[1..]);
        assert a == [a[0]] + a[1..] && b == [b[0]] + b[1..];
      }
    }
  }

  lemma {:induction false} KeyTransitive(a: Key, b: Key, c: Key)
    requires KeyLess(a, b) && KeyLess(b, c)
    ensures KeyLess(a, c)
  {
    if a != [] {
      if a[0] == b[0] == c[0] {
        KeyTransitive(a[1..], b[1..], c[1..]);
      } else if a[0] != b[0] && b[0] != c[0] {
        TextTransitive(a[0], b[0], c[0]);
        TextTotal(a[0], b[0]);
      }
    }
  }

  /** Stable insertion in front of the first element whose key is not smaller. */
  function Insert<T>(x: T, sorted: seq<T>, key: T -> Key): seq<T> {
    if sorted == [] || !KeyLess(key(sorted[0]), key(x)) then [x] + sorted
    else [sorted[0]] + Insert(x, sorted[1..], key)
  }

  function SortBy<T>(items: seq<T>, key: T -> Key): seq<T> {
    if items == [] then [] else Insert(items[0], SortBy(items[1..], key), key)
  }

  ghost predicate StrictlySorted<T>(s: seq<T>, key: T -> Key) {
    forall i, j :: 0 <= i < j < |s| ==> KeyLess(key(s[i]), key(s[j]))
  }

  ghost predicate DistinctKeys<T>(s: seq<T>, key: T -> Key) {
    forall i, j :: 0 <= i < |s| && 0 <= j < |s| && i != j ==> key(s[i]) != key(s[j])
  }

  lemma {:induction false} InsertPermutes<T>(x: T, sorted: seq<T>, key: T -> Key)
    ensures multiset(Insert(x, sorted, key)) == multiset(sorted) + multiset{x}
  {
    if !(sorted == [] || !KeyLess(key(sorted[0]), key(x))) {
      InsertPermutes(x, sorted[1..], key);
      assert sorted == [sorted[0]] + sorted[1..];
    }
  }

  lemma {:induction false} SortPermutes<T>(items: seq<T>, key: T -> Key)
    ensures multiset(SortBy(items, key)) == multiset(items)
    ensures |SortBy(items, key)| == |items|
  {
    if items != [] {
      SortPermutes(items[1..], key);
      InsertPermutes(items[0], SortBy(items[1..], key), key);
      assert items == [items[0]] + items[1..];
      assert |multiset(SortBy(items, key))| == |SortBy(items, key)|;
    }
  }

  lemma {:induction false} InsertSorts<T>(x: T, sorted: seq<T>, key: T -> Key)
    requires StrictlySorted(sorted, key)
    requires forall y :: y in sorted ==> key(y) != key(x)
    ensures StrictlySorted(Insert(x, sorted, key), key)
  {
    var result := Insert(x, sorted, key);
    if sorted == [] {
    } else if !KeyLess(key(sorted[0]), key(x)) {
      KeyTotal(key(sorted[0]), key(x));
      forall j | 0 <= j < |sorted|
        ensures KeyLess(key(x), key(sorted[j]))
      {
        assert sorted[0] in sorted;
        if j > 0 {
          KeyTransitive(key(x), key(sorted[0]), key(sorted[j]));
        }
      }
    } else {
      var rest := sorted[1..];
      assert forall y :: y in rest ==> y in sorted;
      InsertSorts(x, rest, key);
      InsertPermutes(x, rest, key);
      var tail := Insert(x, rest, key);
      forall j | 0 <= j < |tail|
        ensures KeyLess(key(sorted[0]), key(tail[j]))
      {
        assert tail[j] in multiset(tail);
        if tail[j] != x {
          assert tail[j] in rest;
        }
      }
    }
  }

  lemma {:induction false} SortSorts<T>(items: seq<T>, key: T -> Key)
    requires DistinctKeys(items, key)
    ensures StrictlySorted(SortBy(items, key), key)
  {
    if items != [] {
      var rest := items[1..];
      forall i, j | 0 <= i < |rest| && 0 <= j < |rest| && i != j
        ensures key(rest[i]) != key(rest[j])
      {
        assert rest[i] == items[i + 1] && rest[j] == items[j + 1];
      }
      SortSorts(rest, key);
      SortPermutes(rest, key);
      forall y | y in SortBy(rest, key)
        ensures key(y) != key(items[0])
      {
        assert y in multiset(rest);
        var i :| 0 <= i < |rest| && rest[i] == y;
        assert rest[i] == items[i + 1];
      }
      InsertSorts(items[0], SortBy(rest, key), key);
    }
  }

  /** A strictly sorted arrangement of given elements is unique. */
  lemma {:induction false} SortedIsUnique<T>(a: seq<T>, b: seq<T>, key: T -> Key)
    requires StrictlySorted(a, key) && StrictlySorted(b, key)
    requires multiset(a) == multiset(b)
    ensures a == b
  {
    assert |multiset(a)| == |a| && |multiset(b)| == |b|;
    if a != [] {
      HeadsAgree(a, b, key);
      assert a == [a[0]] + a[1..] && b == [b[0]] + b[1..];
      assert multiset(a[1..]) == multiset(a) - multiset{a[0]};
      assert multiset(b[1..]) == multiset(b) - multiset{b[0]};
      SortedIsUnique(a[1..], b[1..], key);
    }
  }

  lemma HeadsAgree<T>(a: seq<T>, b: seq<T>, key: T -> Key)
    requires StrictlySorted(a, key) && StrictlySorted(b, key)
    requires multiset(a) == multiset(b) && a != [] && b != []
    ensures a[0] == b[0]
  {
    assert a[0] in multiset(b) && b[0] in multiset(a);
    var i :| 0 <= i < |b| && b[i] == a[0];
    var j :| 0 <= j < |a| && a[j] == b[0];
    KeyTotal(key(a[0]), key(b[0]));
  }

  // ---------------------------------------------------------------- the order in words

  /** The texts agree up to some place, where the first one ends or has the smaller character. */
  ghost predicate TextBefore(a: string, b: string) {
    exists p: nat ::
      && p <= |a| && p < |b| && a[..p] == b[..p]
      && (p == |a| || a[p] < b[p])
  }

  /** The keys agree up to some field, where the first one ends or has the smaller text. */
  ghost predicate KeyBefore(a: Key, b: Key) {
    exists p: nat ::
      && p <= |a| && p < |b| && a[..p] == b[..p]
      && (p == |a| || TextBefore(a[p], b[p]))
  }

  lemma {:induction false} TextLessMeans(a: string, b: string)
    ensures TextLess(a, b) ==> TextBefore(a, b)
  {
    if TextLess(a, b) {
      if a == [] || a[0] < b[0] {
        assert a[..0] == b[..0];
      } else {
        TextLessMeans(a[1..], b[1..]);
        var p: nat :| && p <= |a[1..]| && p < |b[1..]| && a[1..][..p] == b[1..][..p]
                      && (p == |a[1..]| || a[1..][p] < b[1..][p]);
        assert a[..p + 1] == [a[0]] + a[1..][..p] && b[..p + 1] == [b[0]] + b[1..][..p];
      }
    }
  }

  lemma {:induction false} KeyLessMeans(a: Key, b: Key)
    ensures KeyLess(a, b) ==> KeyBefore(a, b)
  {
    if KeyLess(a, b) {
      if a == [] {
        assert a[..0] == b[..0];
      } else if a[0] != b[0] {
        TextLessMeans(a[0], b[0]);
        assert a[..0] == b[..0];
      } else {
        KeyLessMeans(a[1..], b[1..]);
        var p: nat :| && p <= |a[1..]| && p < |b[1..]| && a[1..][..p] == b[1..][..p]
                      && (p == |a[1..]| || TextBefore(a[1..][p], b[1..][p]));
        assert a[..p + 1] == [a[0]] + a[1..][..p] && b[..p + 1] == [b[0]] + b[1..][..p];
      }
    }
  }
}
