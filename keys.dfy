/** Key/value pairs as the map function emits them, Go's string order on keys,
    and the sort by key that the reduce side runs before grouping. */
module Keys {

  datatype KeyValue = KeyValue(key: string, value: string)

  /** Go's `<` on strings: lexicographic on bytes. Characters here are Unicode
      scalar values, and comparing them by code point orders strings exactly
      as comparing their UTF-8 bytes does. */
  predicate KeyLess(a: string, b: string)
    ensures KeyLess(a, b) && a != [] ==> b != [] && a[0] <= b[0]
    decreases |a|
  {
    if a == [] then b != []
    else if b == [] then false
    else if a[0] != b[0] then a[0] < b[0]
    else KeyLess(a[1..], b[1..])
  }

  /** The textbook lexicographic order: `a` is a proper prefix of `b`, or
      the first position where they differ holds the smaller character in `a`. */
  predicate LexLess(a: string, b: string) {
    || (|a| < |b| && a == b[..|a|])
    || exists j :: 0 <= j < |a| && j < |b| && a[..j] == b[..j] && a[j] < b[j]
  }

  lemma {:induction false} LexImpliesKeyLess(a: string, b: string)
    requires LexLess(a, b)
    ensures KeyLess(a, b)
    decreases |a|
  {
    if |a| < |b| && a == b[..|a|] {
      if a != [] {
        assert a[0] == b[0];
        assert a[1..] == b[1..][..|a| - 1];
        LexImpliesKeyLess(a[1..], b[1..]);
      }
    } else {
      var j :| 0 <= j < |a| && j < |b| && a[..j] == b[..j] && a[j] < b[j];
      if j > 0 {
        assert a[0] == a[..j][0] == b[..j][0] == b[0];
        assert a[1..][..j - 1] == b[1..][..j - 1];
        assert a[1..][j - 1] == a[j] && b[1..][j - 1] == b[j];
        LexImpliesKeyLess(a[1..], b[1..]);
      }
    }
  }

  lemma {:induction false} KeyLessImpliesLex(a: string, b: string)
    requires KeyLess(a, b)
    ensures LexLess(a, b)
    decreases |a|
  {
    if a == [] {
      assert a == b[..0];
    } else if a[0] != b[0] {
      assert a[..0] == b[..0];
    } else {
      KeyLessImpliesLex(a[1..], b[1..]);
      if |a[1..]| < |b[1..]| && a[1..] == b[1..][..|a| - 1] {
        assert a == [a[0]] + a[1..] && b[..|a|] == [b[0]] + b[1..][..|a| - 1];
      } else {
        var j :| 0 <= j < |a| - 1 && j < |b| - 1 && a[1..][..j] == b[1..][..j] && a[1..][j] < b[1..][j];
        assert a[..j + 1] == [a[0]] + a[1..][..j] && b[..j + 1] == [b[0]] + b[1..][..j];
        assert a[j + 1] < b[j + 1];
      }
    }
  }

  /** Go's string order is the lexicographic order. */
  lemma KeyLessIsLexicographic(a: string, b: string)
    ensures KeyLess(a, b) <==> LexLess(a, b)
  {
    if KeyLess(a, b) {
      KeyLessImpliesLex(a, b);
    }
    if LexLess(a, b) {
      LexImpliesKeyLess(a, b);
    }
  }

  /** `a` sorts no later than `b`. */
  predicate KeyLe(a: string, b: string) {
    !KeyLess(b, a)
  }

  lemma {:induction false} KeyLessIrreflexive(a: string)
    ensures !KeyLess(a, a)
  {
    if a != [] {
      KeyLessIrreflexive(a[1..]);
    }
  }

  lemma {:induction false} KeyLessTransitive(a: string, b: string, c: string)
    requires KeyLess(a, b) && KeyLess(b, c)
    ensures KeyLess(a, c)
    decreases |a|
  {
    if a != [] && a[0] == b[0] && b[0] == c[0] {
      KeyLessTransitive(a[1..], b[1..], c[1..]);
    }
  }

  /** Any two different keys are ordered one way. */
  lemma {:induction false} KeyLessTotal(a: string, b: string)
    ensures a == b || KeyLess(a, b) || KeyLess(b, a)
    decreases |a|
  {
    if a != [] && b != [] && a[0] == b[0] {
      KeyLessTotal(a[1..], b[1..]);
      if a[1..] == b[1..] {
        assert a == [a[0]] + a[1..] && b == [b[0]] + b[1..];
      }
    }
  }

  lemma KeyLeTransitive(a: string, b: string, c: string)
    requires KeyLe(a, b) && KeyLe(b, c)
    ensures KeyLe(a, c)
  {
    if KeyLess(c, a) {
      KeyLessTotal(a, b);
      if a != b {
        KeyLessTransitive(c, a, b);
      }
    }
  }

  /** Strictly before, then no later, is strictly before. */
  lemma KeyLessLe(a: string, b: string, c: string)
    requires KeyLess(a, b) && KeyLe(b, c)
    ensures KeyLess(a, c)
  {
    KeyLessTotal(b, c);
    if b != c {
      KeyLessTransitive(a, b, c);
    }
  }

  /** Keys never decrease along the sequence. */
  predicate SortedByKey(s: seq<KeyValue>) {
    forall i, j :: 0 <= i < j < |s| ==> KeyLe(s[i].key, s[j].key)
  }

  /** Putting `y` in front of a sorted sequence of keys no lower than its own
      keeps it sorted. */
  lemma SortedCons(y: KeyValue, t: seq<KeyValue>)
    requires SortedByKey(t)
    requires forall j :: 0 <= j < |t| ==> KeyLe(y.key, t[j].key)
    ensures SortedByKey([y] + t)
  {
    assert forall j :: 1 <= j <= |t| ==> ([y] + t)[j] == t[j - 1];
  }

  /** Put `x` in front of the first pair whose key is not below its own. */
  function Insert(x: KeyValue, s: seq<KeyValue>): (r: seq<KeyValue>)
    requires SortedByKey(s)
    ensures SortedByKey(r)
    ensures multiset(r) == multiset(s) + multiset{x}
  {
    if s == [] then [x]
    else if KeyLess(s[0].key, x.key) then
      var rest := Insert(x, s[1..]);
      InsertLowerBound(s[0], x, s[1..], rest);
      SortedCons(s[0], rest);
      assert s == [s[0]] + s[1..];
      [s[0]] + rest
    else
      forall j | 0 <= j < |s|
        ensures KeyLe(x.key, s[j].key)
      {
        if KeyLess(s[j].key, x.key) {
          KeyLeTransitive(x.key, s[0].key, s[j].key);
        }
      }
      SortedCons(x, s);
      [x] + s
  }

  /** A key strictly below `x`'s and no higher than any key of `t` bounds
      every key of a permutation of `t` plus `x`. */
  lemma InsertLowerBound(y: KeyValue, x: KeyValue, t: seq<KeyValue>, r: seq<KeyValue>)
    requires KeyLess(y.key, x.key)
    requires forall j :: 0 <= j < |t| ==> KeyLe(y.key, t[j].key)
    requires multiset(r) == multiset(t) + multiset{x}
    ensures forall j :: 0 <= j < |r| ==> KeyLe(y.key, r[j].key)
  {
    forall j | 0 <= j < |r|
      ensures KeyLe(y.key, r[j].key)
    {
      assert r[j] in multiset(r);
      if r[j] == x {
        if KeyLess(x.key, y.key) {
          KeyLessTransitive(x.key, y.key, x.key);
          KeyLessIrreflexive(x.key);
        }
      } else {
        assert r[j] in multiset(t);
        var i :| 0 <= i < |t| && t[i] == r[j];
      }
    }
  }

  /** A stable insertion sort by key. */
  function SortByKey(s: seq<KeyValue>): (r: seq<KeyValue>)
    ensures SortedByKey(r)
    ensures multiset(r) == multiset(s)
  {
    if s == [] then []
    else
      assert s == [s[0]] + s[1..];
      Insert(s[0], SortByKey(s[1..]))
  }

  /** The values of the pairs whose key is `k`, in sequence order. */
  function ValuesWithKey(s: seq<KeyValue>, k: string): seq<string> {
    if s == [] then []
    else (if s[0].key == k then [s[0].value] else []) + ValuesWithKey(s[1..], k)
  }

  lemma {:induction false} ValuesWithKeyConcat(a: seq<KeyValue>, b: seq<KeyValue>, k: string)
    ensures ValuesWithKey(a + b, k) == ValuesWithKey(a, k) + ValuesWithKey(b, k)
  {
    if a != [] {
      var head := if a[0].key == k then [a[0].value] else [];
      assert (a + b)[0] == a[0];
      assert (a + b)[1..] == a[1..] + b;
      ValuesWithKeyConcat(a[1..], b, k);
      calc {
        ValuesWithKey(a + b, k);
        head + ValuesWithKey(a[1..] + b, k);
        head + (ValuesWithKey(a[1..], k) + ValuesWithKey(b, k));
        (head + ValuesWithKey(a[1..], k)) + ValuesWithKey(b, k);
      }
    } else {
      assert a + b == b;
    }
  }

  /** No pair with key `k`, no values. */
  lemma {:induction false} ValuesWithAbsentKey(s: seq<KeyValue>, k: string)
    requires forall i :: 0 <= i < |s| ==> s[i].key != k
    ensures ValuesWithKey(s, k) == []
  {
    if s != [] {
      ValuesWithAbsentKey(s[1..], k);
    }
  }

  lemma {:induction false} InsertKeepsValues(x: KeyValue, s: seq<KeyValue>, k: string)
    requires SortedByKey(s)
    ensures multiset(ValuesWithKey(Insert(x, s), k)) == multiset(ValuesWithKey([x] + s, k))
  {
    if s != [] && KeyLess(s[0].key, x.key) {
      InsertKeepsValues(x, s[1..], k);
      assert ([s[0]] + Insert(x, s[1..]))[1..] == Insert(x, s[1..]);
      assert ([x] + s)[1..] == s;
      assert ([x] + s[1..])[1..] == s[1..];
    }
  }

  /** Sorting keeps, for every key, the multiset of its values; only their
      order may change. */
  lemma {:induction false} SortKeepsValues(s: seq<KeyValue>, k: string)
    ensures multiset(ValuesWithKey(SortByKey(s), k)) == multiset(ValuesWithKey(s, k))
  {
    if s != [] {
      SortKeepsValues(s[1..], k);
      InsertKeepsValues(s[0], SortByKey(s[1..]), k);
      assert ([s[0]] + SortByKey(s[1..]))[1..] == SortByKey(s[1..]);
    }
  }

  /** A key with values occurs in the sequence. */
  lemma {:induction false} ValuesWithKeyOccurs(s: seq<KeyValue>, k: string)
    requires ValuesWithKey(s, k) != []
    ensures exists m :: 0 <= m < |s| && s[m].key == k
  {
    if s[0].key != k {
      ValuesWithKeyOccurs(s[1..], k);
      var m :| 0 <= m < |s[1..]| && s[1..][m].key == k;
      assert s[m + 1].key == k;
    }
  }

  /** A key that occurs has values. */
  lemma {:induction false} OccursHasValues(s: seq<KeyValue>, k: string, m: nat)
    requires m < |s| && s[m].key == k
    ensures ValuesWithKey(s, k) != []
  {
    if m > 0 && s[0].key != k {
      OccursHasValues(s[1..], k, m - 1);
    }
  }
}
