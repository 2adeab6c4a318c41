/** College records, the sort specification of the table, and the
    comparator the table sorts with. */
module Colleges {
  import opened Keys

  /** The five sortable columns of the table. */
  datatype Column = Ranking | Name | Course | Fees | UserRating

  /** One college listing.  The rating is kept as an ordered integer key
      (for instance tenths of a star) rather than a floating-point number. */
  datatype Record = Record(
    id: int,
    ranking: int,
    name: string,
    course: string,
    fees: int,
    userRating: int)

  /** The active sort column and direction (`sortBy` in the component). */
  datatype SortSpec = SortSpec(column: Column, ascending: bool)

  /** `record[column]`: the value the comparator looks at.  The kind of
      the key depends on the column only, so two keys of one column are
      always both numbers or both strings. */
  function KeyOf(r: Record, column: Column): (k: Key)
    ensures k.Text? <==> column == Name || column == Course
  {
    match column
    case Ranking => Num(r.ranking)
    case Name => Text(r.name)
    case Course => Text(r.course)
    case Fees => Num(r.fees)
    case UserRating => Num(r.userRating)
  }

  /** The three-way comparator handed to `sort`: -1 when `a` goes first,
      1 when `b` goes first, 0 when their keys are equal. */
  function Compare(a: Record, b: Record, spec: SortSpec): (c: int)
    ensures -1 <= c <= 1
    ensures c == 0 <==> KeyOf(a, spec.column) == KeyOf(b, spec.column)
  {
    var ka, kb := KeyOf(a, spec.column), KeyOf(b, spec.column);
    LessTotal(ka, kb);
    if Less(ka, kb) then (if spec.ascending then -1 else 1)
    else if Less(kb, ka) then (if spec.ascending then 1 else -1)
    else 0
  }

  /** The comparator allows `a` before `b`. */
  predicate InOrder(a: Record, b: Record, spec: SortSpec) {
    Compare(a, b, spec) <= 0
  }

  /** Every pair of rows is in the order the comparator asks for. */
  predicate Sorted(s: seq<Record>, spec: SortSpec) {
    forall i, j :: 0 <= i < j < |s| ==> InOrder(s[i], s[j], spec)
  }

  /** `r` is one of the results `[...s].sort(comparator)` may give:
      the rows of `s`, each as often as in `s`, in comparator order.
      Which of several rows with equal keys comes first is left open. */
  predicate IsSortedPermutation(r: seq<Record>, s: seq<Record>, spec: SortSpec) {
    Sorted(r, spec) && multiset(r) == multiset(s)
  }

  /** The comparator is antisymmetric, as `sort` requires of it. */
  lemma CompareAntisymmetric(a: Record, b: Record, spec: SortSpec)
    ensures Compare(a, b, spec) == -Compare(b, a, spec)
  {
    var ka, kb := KeyOf(a, spec.column), KeyOf(b, spec.column);
    if Less(ka, kb) {
      LessAsymmetric(ka, kb);
    }
  }

  /** The comparator orders rows by the sort column, non-decreasing when
      ascending and non-increasing when descending. */
  lemma CompareMeaning(a: Record, b: Record, spec: SortSpec)
    ensures InOrder(a, b, spec) <==> InDirection(KeyOf(a, spec.column), KeyOf(b, spec.column), spec.ascending)
  {
    var ka, kb := KeyOf(a, spec.column), KeyOf(b, spec.column);
    LessTotal(ka, kb);
    if Less(ka, kb) {
      LessAsymmetric(ka, kb);
    }
  }

  lemma InOrderTotal(a: Record, b: Record, spec: SortSpec)
    ensures InOrder(a, b, spec) || InOrder(b, a, spec)
  {
    CompareAntisymmetric(a, b, spec);
  }

  lemma InOrderTransitive(a: Record, b: Record, c: Record, spec: SortSpec)
    requires InOrder(a, b, spec) && InOrder(b, c, spec)
    ensures InOrder(a, c, spec)
  {
    CompareMeaning(a, b, spec);
    CompareMeaning(b, c, spec);
    CompareMeaning(a, c, spec);
    InDirectionTransitive(KeyOf(a, spec.column), KeyOf(b, spec.column), KeyOf(c, spec.column), spec.ascending);
  }

  /** `h` may stand before every row of `s`. */
  predicate Leads(h: Record, s: seq<Record>, spec: SortSpec) {
    forall k :: 0 <= k < |s| ==> InOrder(h, s[k], spec)
  }

  lemma SortedCons(h: Record, s: seq<Record>, spec: SortSpec)
    requires Sorted(s, spec) && Leads(h, s, spec)
    ensures Sorted([h] + s, spec)
  {
  }

  /** A row that may go before the head of a sorted list may go before all of it. */
  lemma LeadsSorted(h: Record, s: seq<Record>, spec: SortSpec)
    requires Sorted(s, spec) && |s| > 0 && InOrder(h, s[0], spec)
    ensures Leads(h, s, spec)
  {
    forall k | 0 <= k < |s|
      ensures InOrder(h, s[k], spec)
    {
      if k > 0 {
        InOrderTransitive(h, s[0], s[k], spec);
      }
    }
  }

  /** Leading is a property of the multiset of rows. */
  lemma LeadsPermutation(h: Record, t: seq<Record>, x: Record, r: seq<Record>, spec: SortSpec)
    requires Leads(h, t, spec) && InOrder(h, x, spec)
    requires multiset(r) == multiset(t) + multiset{x}
    ensures Leads(h, r, spec)
  {
    forall k | 0 <= k < |r|
      ensures InOrder(h, r[k], spec)
    {
      assert r[k] in multiset(r);
      if r[k] != x {
        assert r[k] in multiset(t);
        var j :| 0 <= j < |t| && t[j] == r[k];
      }
    }
  }

  /** Insert one row into a sorted list, before the first row it may precede. */
  function Insert(x: Record, s: seq<Record>, spec: SortSpec): (r: seq<Record>)
    requires Sorted(s, spec)
    ensures Sorted(r, spec)
    ensures multiset(r) == multiset(s) + multiset{x}
    decreases |s|
  {
    if s == [] then [x]
    else if InOrder(x, s[0], spec) then
      LeadsSorted(x, s, spec);
      SortedCons(x, s, spec);
      [x] + s
    else
      var rest := Insert(x, s[1..], spec);
      InOrderTotal(x, s[0], spec);
      assert Leads(s[0], s[1..], spec);
      LeadsPermutation(s[0], s[1..], x, rest, spec);
      SortedCons(s[0], rest, spec);
      assert s == [s[0]] + s[1..];
      [s[0]] + rest
  }

  /** A sort with the table's comparator (insertion sort).  It stands for
      `Array.prototype.sort`: callers rely only on its result being a
      sorted permutation of the input. */
  function SortRows(s: seq<Record>, spec: SortSpec): (r: seq<Record>)
    ensures IsSortedPermutation(r, s, spec)
    decreases |s|
  {
    if s == [] then []
    else
      assert s == [s[0]] + s[1..];
      Insert(s[0], SortRows(s[1..], spec), spec)
  }

  /** The sort-column values of the rows, in row order. */
  function ColumnKeys(s: seq<Record>, column: Column): seq<Key> {
    seq(|s|, i requires 0 <= i < |s| => KeyOf(s[i], column))
  }

  /** Rows are sorted exactly when their sort-column values are
      non-decreasing (ascending) or non-increasing (descending). */
  lemma SortedIffKeysSorted(s: seq<Record>, spec: SortSpec)
    ensures Sorted(s, spec) <==> KeysSorted(ColumnKeys(s, spec.column), spec.ascending)
  {
    var ks := ColumnKeys(s, spec.column);
    forall i, j | 0 <= i < j < |s|
      ensures InOrder(s[i], s[j], spec) <==> InDirection(ks[i], ks[j], spec.ascending)
    {
      CompareMeaning(s[i], s[j], spec);
    }
  }

  lemma KeysConcat(a: seq<Record>, b: seq<Record>, column: Column)
    ensures ColumnKeys(a + b, column) == ColumnKeys(a, column) + ColumnKeys(b, column)
  {
  }

  /** Rows holding the same multiset have the same multiset of keys. */
  lemma {:induction false} MultisetKeys(s: seq<Record>, t: seq<Record>, column: Column)
    requires multiset(s) == multiset(t)
    ensures multiset(ColumnKeys(s, column)) == multiset(ColumnKeys(t, column))
    decreases |s|
  {
    if |s| == 0 {
      assert |t| == |multiset(t)| == 0;
    } else {
      var x := s[0];
      assert x in multiset(t);
      var j :| 0 <= j < |t| && t[j] == x;
      var rest := t[..j] + t[j + 1..];
      assert t == t[..j] + [x] + t[j + 1..];
      assert s == [x] + s[1..];
      assert multiset(s[1..]) == multiset(s) - multiset{x};
      assert multiset(rest) == multiset(t) - multiset{x};
      MultisetKeys(s[1..], rest, column);
      KeysConcat([x], s[1..], column);
      KeysConcat(t[..j], t[j + 1..], column);
      KeysConcat(t[..j] + [x], t[j + 1..], column);
      KeysConcat(t[..j], [x], column);
    }
  }

  /** Any two results the sort may give differ only in the order of rows
      with equal keys: the sorted column reads the same in both. */
  lemma SortedPermutationsAgreeOnKeys(r1: seq<Record>, r2: seq<Record>, s: seq<Record>, spec: SortSpec)
    requires IsSortedPermutation(r1, s, spec) && IsSortedPermutation(r2, s, spec)
    ensures |r1| == |r2|
    ensures forall i :: 0 <= i < |r1| ==> KeyOf(r1[i], spec.column) == KeyOf(r2[i], spec.column)
  {
    SortedIffKeysSorted(r1, spec);
    SortedIffKeysSorted(r2, spec);
    MultisetKeys(r1, r2, spec.column);
    SortedKeysUnique(ColumnKeys(r1, spec.column), ColumnKeys(r2, spec.column), spec.ascending);
    assert |r1| == |ColumnKeys(r1, spec.column)| == |ColumnKeys(r2, spec.column)| == |r2|;
    forall i | 0 <= i < |r1|
      ensures KeyOf(r1[i], spec.column) == KeyOf(r2[i], spec.column)
    {
      assert ColumnKeys(r1, spec.column)[i] == ColumnKeys(r2, spec.column)[i];
    }
  }

  /** The first row of a sorted result may precede every row of the input:
      with the smallest key when ascending, the largest when descending. */
  lemma HeadLeads(r: seq<Record>, s: seq<Record>, spec: SortSpec)
    requires IsSortedPermutation(r, s, spec) && |s| > 0
    ensures |r| > 0
    ensures forall x :: x in s ==> InOrder(r[0], x, spec)
  {
    assert |r| == |multiset(r)| == |multiset(s)| == |s|;
    forall x | x in s
      ensures InOrder(r[0], x, spec)
    {
      assert x in multiset(r);
      var k :| 0 <= k < |r| && r[k] == x;
      if k == 0 {
        CompareMeaning(x, x, spec);
      }
    }
  }

  /** The toggle rule of a header click: the same column flips the
      direction, another column starts ascending. */
  function Toggled(current: SortSpec, column: Column): (r: SortSpec)
    ensures r.column == column
    ensures r != current
    ensures column != current.column ==> r.ascending
  {
    SortSpec(column, if current.column == column then !current.ascending else true)
  }

  /** Clicking the same header twice returns to the direction it had; a
      new column clicked twice ends up descending. */
  lemma ToggleTwice(current: SortSpec, column: Column)
    ensures Toggled(Toggled(current, column), column)
         == if column == current.column then current else SortSpec(column, false)
  {
  }
}
