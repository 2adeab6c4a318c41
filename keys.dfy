/** Sort keys of the college table and the order JavaScript's relational
    operators put on them.  The comparator compares one column of two
    records with `<` and `>`; a column holds either numbers (rank, fees,
    rating) or strings (college name, course), so a key is one of the two. */
module Keys {

  datatype Key = Num(n: int) | Text(s: string)

  /** `a < b` on two JavaScript strings: lexicographic by character code,
      a proper prefix coming first. */
  predicate StrLess(a: string, b: string): (r: bool)
    ensures r ==> a != b
    ensures |a| < |b| && a == b[..|a|] ==> r
    decreases |a|
  {
    if |a| == 0 then |b| > 0
    else if |b| == 0 then false
    else if a[0] != b[0] then a[0] < b[0]
    else StrLess(a[1..], b[1..])
  }

  lemma StrLessIrreflexive(a: string)
    ensures !StrLess(a, a)
  {
  }

  lemma {:induction false} StrLessTransitive(a: string, b: string, c: string)
    requires StrLess(a, b) && StrLess(b, c)
    ensures StrLess(a, c)
    decreases |a|
  {
    if |a| > 0 && a[0] == b[0] && b[0] == c[0] {
      StrLessTransitive(a[1..], b[1..], c[1..]);
    }
  }

  /** Two distinct strings are always ordered one way or the other. */
  lemma {:induction false} StrLessTotal(a: string, b: string)
    ensures a == b || StrLess(a, b) || StrLess(b, a)
    decreases |a|
  {
    if |a| > 0 && |b| > 0 && a[0] == b[0] {
      StrLessTotal(a[1..], b[1..]);
      if a[1..] == b[1..] {
        assert a == [a[0]] + a[1..] && b == [b[0]] + b[1..];
      }
    }
  }

  lemma {:induction false} StrLessAsymmetric(a: string, b: string)
    requires StrLess(a, b)
    ensures !StrLess(b, a)
  {
    if StrLess(b, a) {
      StrLessTransitive(a, b, a);
    }
  }

  /** The strict order on keys.  Within one column both keys have the same
      kind; the order between a number and a string (which JavaScript
      decides by coercion) is fixed arbitrarily, to keep the order total. */
  predicate Less(a: Key, b: Key): (r: bool)
    ensures r ==> a != b
  {
    match (a, b)
    case (Num(x), Num(y)) => x < y
    case (Text(x), Text(y)) => StrLess(x, y)
    case (Num(_), Text(_)) => true
    case (Text(_), Num(_)) => false
  }

  lemma LessIrreflexive(a: Key)
    ensures !Less(a, a)
  {
  }

  lemma LessAsymmetric(a: Key, b: Key)
    requires Less(a, b)
    ensures !Less(b, a)
  {
    if a.Text? && b.Text? {
      StrLessAsymmetric(a.s, b.s);
    }
  }

  lemma LessTransitive(a: Key, b: Key, c: Key)
    requires Less(a, b) && Less(b, c)
    ensures Less(a, c)
  {
    if a.Text? && b.Text? && c.Text? {
      StrLessTransitive(a.s, b.s, c.s);
    }
  }

  /** Trichotomy: the order on keys is total. */
  lemma LessTotal(a: Key, b: Key)
    ensures a == b || Less(a, b) || Less(b, a)
  {
    if a.Text? && b.Text? {
      StrLessTotal(a.s, b.s);
    }
  }

  /** `a` may stand before `b` in a list sorted in the given direction:
      not greater when ascending, not smaller when descending. */
  predicate InDirection(a: Key, b: Key, ascending: bool) {
    if ascending then !Less(b, a) else !Less(a, b)
  }

  lemma InDirectionReflexive(a: Key, ascending: bool)
    ensures InDirection(a, a, ascending)
  {
  }

  lemma InDirectionAntisymmetric(a: Key, b: Key, ascending: bool)
    requires InDirection(a, b, ascending) && InDirection(b, a, ascending)
    ensures a == b
  {
    LessTotal(a, b);
  }

  lemma InDirectionTransitive(a: Key, b: Key, c: Key, ascending: bool)
    requires InDirection(a, b, ascending) && InDirection(b, c, ascending)
    ensures InDirection(a, c, ascending)
  {
    LessTotal(a, b);
    LessTotal(b, c);
    if Less(a, b) && Less(b, c) {
      LessTransitive(a, b, c);
      LessAsymmetric(a, c);
    } else if Less(b, a) && Less(c, b) {
      LessTransitive(c, b, a);
      LessAsymmetric(c, a);
    }
  }

  /** A list of keys sorted in one direction. */
  predicate KeysSorted(ks: seq<Key>, ascending: bool) {
    forall i, j :: 0 <= i < j < |ks| ==> InDirection(ks[i], ks[j], ascending)
  }

  /** There is only one way to sort a multiset of keys: two sorted lists
      holding the same keys are equal. */
  lemma {:induction false} SortedKeysUnique(a: seq<Key>, b: seq<Key>, ascending: bool)
    requires KeysSorted(a, ascending) && KeysSorted(b, ascending)
    requires multiset(a) == multiset(b)
    ensures a == b
    decreases |a|
  {
    assert |a| == |multiset(a)| == |multiset(b)| == |b|;
    if |a| > 0 {
      SortedSameHead(a, b, ascending);
      SortedTail(a, ascending);
      SortedTail(b, ascending);
      SortedKeysUnique(a[1..], b[1..], ascending);
      assert a == [a[0]] + a[1..] && b == [b[0]] + b[1..];
    }
  }

  /** Two non-empty sorted lists holding the same keys start alike. */
  lemma SortedSameHead(a: seq<Key>, b: seq<Key>, ascending: bool)
    requires KeysSorted(a, ascending) && KeysSorted(b, ascending)
    requires multiset(a) == multiset(b) && |a| > 0
    ensures |b| > 0 && a[0] == b[0]
  {
    assert a[0] in multiset(b);
    SortedHeadFirst(b, a[0], ascending);
    SortedHeadFirst(a, b[0], ascending);
    InDirectionAntisymmetric(a[0], b[0], ascending);
  }

  /** Dropping the head of a sorted list leaves a sorted list holding the
      other keys. */
  lemma SortedTail(ks: seq<Key>, ascending: bool)
    requires KeysSorted(ks, ascending) && |ks| > 0
    ensures KeysSorted(ks[1..], ascending)
    ensures multiset(ks[1..]) == multiset(ks) - multiset{ks[0]}
  {
    assert ks == [ks[0]] + ks[1..];
  }

  /** The head of a sorted list of keys comes before every key in it. */
  lemma SortedHeadFirst(ks: seq<Key>, k: Key, ascending: bool)
    requires KeysSorted(ks, ascending) && k in multiset(ks)
    ensures |ks| > 0 && InDirection(ks[0], k, ascending)
  {
    var j :| 0 <= j < |ks| && ks[j] == k;
  }
}
