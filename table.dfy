/** The college table component: its state, the sort effect, the header
    click handler and the infinite-scroll loader, each as one atomic step. */
module CollegeDuniya {
  import opened Keys
  import opened Colleges
  import opened Paging

  class CollegeTable {
    /** `dummyData.colleges`: the dataset, fixed for the table's lifetime. */
    const colleges: seq<Record>

    var sortBy: SortSpec
    var sortedData: seq<Record>
    var visibleData: seq<Record>
    var currentPage: nat
    var hasMore: bool
    var fullyLoaded: bool

    /** The sorted rows are the dataset in the order `sortBy` asks for;
        then they always have the dataset's length, the second condition
        `fetchMoreData` tests before setting `fullyLoaded`. */
    ghost predicate Valid()
      reads this
      ensures Valid() ==> |sortedData| == |colleges|
    {
      assert |sortedData| == |multiset(sortedData)|;
      assert |colleges| == |multiset(colleges)|;
      IsSortedPermutation(sortedData, colleges, sortBy)
    }

    /** The rows shown are the first `currentPage + 1` pages. */
    ghost predicate Windowed()
      reads this
    {
      visibleData == Window(sortedData, currentPage)
    }

    /** The flag handed to the infinite scroller: ask for more rows.  It
        stays false once the table is fully loaded. */
    predicate MoreToLoad()
      reads this
      ensures fullyLoaded ==> !MoreToLoad()
    {
      hasMore && !fullyLoaded
    }

    /** The state between events, once every effect has run: sorted
        dataset, `hasMore` set, and either every row shown on page 0
        (fully loaded) or the first `currentPage + 1` pages, with the
        current page starting at a row that exists or at the end. */
    ghost predicate Settled()
      reads this
    {
      && Valid()
      && hasMore
      && if fullyLoaded then visibleData == sortedData && currentPage == 0
         else Windowed() && currentPage * PerPage <= |sortedData|
    }

    /** Mounting: the initial state, then the first run of the sort effect. */
    constructor (colleges: seq<Record>)
      ensures this.colleges == colleges
      ensures sortBy == SortSpec(Ranking, true)
      ensures Valid() && Windowed()
      ensures currentPage == 0 && hasMore && !fullyLoaded
      ensures visibleData == sortedData[..Min(PerPage, |sortedData|)]
      ensures Settled()
    {
      this.colleges := colleges;
      sortBy := SortSpec(Ranking, true);
      sortedData := [];
      visibleData := [];
      currentPage := 0;
      hasMore := true;
      fullyLoaded := false;
      new;
      SortEffect();
    }

    /** The sort effect: sort a copy of the dataset, go back to the first
        page, and show either that page or, once fully loaded, every row. */
    method SortEffect()
      modifies this
      ensures sortBy == old(sortBy) && fullyLoaded == old(fullyLoaded)
      ensures Valid()
      ensures currentPage == 0 && hasMore
      ensures visibleData == if fullyLoaded then sortedData else sortedData[..Min(PerPage, |sortedData|)]
      ensures !fullyLoaded ==> Windowed()
    {
      var sorted := SortRows(colleges, sortBy);
      sortedData := sorted;
      currentPage := 0;
      hasMore := true;
      if fullyLoaded {
        visibleData := sorted;
      } else {
        visibleData := Slice(sorted, 0, PerPage);
      }
      FirstPage(sorted);
    }

    /** `fetchMoreData`, with its timer callback run at once: append the
        next page of the sorted rows and update the flags. */
    method FetchMoreData()
      modifies this
      ensures sortBy == old(sortBy) && sortedData == old(sortedData)
      ensures currentPage == old(currentPage) + 1
      ensures visibleData == old(visibleData) + Page(sortedData, currentPage)
      ensures |Page(sortedData, currentPage)| <= PerPage
      ensures hasMore == (old(hasMore) && (currentPage + 1) * PerPage <= |sortedData|)
      ensures fullyLoaded == (old(fullyLoaded)
                || ((currentPage + 1) * PerPage > |sortedData| && |sortedData| == |colleges|))
      ensures old(Valid()) ==> Valid()
      ensures old(Windowed()) ==> Windowed() && |visibleData| == Min((currentPage + 1) * PerPage, |sortedData|)
    {
      var nextPage := currentPage + 1;
      var newData := Slice(sortedData, nextPage * PerPage, (nextPage + 1) * PerPage);
      currentPage := nextPage;
      if |newData| < PerPage {
        hasMore := false;
        if |sortedData| == |colleges| {
          fullyLoaded := true;
        }
      }
      ghost var window := visibleData == Window(sortedData, nextPage - 1);
      visibleData := visibleData + newData;
      PageLength(sortedData, nextPage);
      if window {
        WindowThenPage(sortedData, nextPage - 1);
      }
    }

    /** `handleSort`: apply the toggle rule, re-sort the current rows and
        show the single page `currentPage` of the result. */
    method HandleSort(column: Column)
      modifies this
      ensures sortBy == Toggled(old(sortBy), column)
      ensures IsSortedPermutation(sortedData, old(sortedData), sortBy)
      ensures visibleData == Page(sortedData, currentPage) && |visibleData| <= PerPage
      ensures currentPage == old(currentPage) && hasMore == old(hasMore) && fullyLoaded == old(fullyLoaded)
      ensures old(Valid()) ==> Valid()
    {
      var newSortBy := Toggled(sortBy, column);
      var sorted := SortRows(sortedData, newSortBy);
      sortedData := sorted;
      visibleData := Slice(sorted, currentPage * PerPage, (currentPage + 1) * PerPage);
      sortBy := newSortBy;
      PageLength(sorted, currentPage);
    }

    /** A header click as the component settles it: `handleSort` sets a new
        `sortBy`, which runs the sort effect again. */
    method Click(column: Column)
      modifies this
      ensures sortBy == Toggled(old(sortBy), column)
      ensures Valid()
      ensures currentPage == 0 && hasMore && fullyLoaded == old(fullyLoaded)
      ensures visibleData == if fullyLoaded then sortedData else sortedData[..Min(PerPage, |sortedData|)]
      ensures Settled()
    {
      HandleSort(column);
      SortEffect();
    }

    /** A scroll to the bottom as the component settles it: `fetchMoreData`,
        then the sort effect again when it has just set `fullyLoaded`. */
    method LoadMore()
      modifies this
      ensures sortBy == old(sortBy)
      ensures old(fullyLoaded) ==> fullyLoaded
      ensures old(Valid()) ==> Valid()
      ensures fullyLoaded == (old(fullyLoaded)
                || ((old(currentPage) + 2) * PerPage > |old(sortedData)| && |old(sortedData)| == |colleges|))
      ensures !old(fullyLoaded) && fullyLoaded ==>
                Valid() && currentPage == 0 && hasMore && visibleData == sortedData && !MoreToLoad()
      ensures old(fullyLoaded) || !fullyLoaded ==>
                && sortedData == old(sortedData)
                && currentPage == old(currentPage) + 1
                && visibleData == old(visibleData) + Page(sortedData, currentPage)
                && hasMore == (old(hasMore) && (currentPage + 1) * PerPage <= |sortedData|)
      ensures old(Settled()) && old(MoreToLoad()) ==> Settled()
    {
      var wasLoaded := fullyLoaded;
      FetchMoreData();
      if fullyLoaded != wasLoaded {
        SortEffect();
      }
    }
  }

  /** A 45-row dataset: the first page and two loads show 20, 40 and 45
      rows; the second load finds a short page, so the table stops asking
      for more and counts as fully loaded. */
  method FortyFiveRows(colleges: seq<Record>) returns (shown: seq<nat>, more: bool, loaded: bool, scrollerMore: bool)
    requires |colleges| == 45
    ensures shown == [20, 40, 45]
    ensures !more && loaded && !scrollerMore
  {
    var table := new CollegeTable(colleges);
    assert |table.sortedData| == |multiset(table.sortedData)| == |multiset(colleges)| == 45;
    var first := |table.visibleData|;
    var second := FortyFiveFetched(table);
    shown := [first, second, |table.visibleData|];
    more, loaded, scrollerMore := table.hasMore, table.fullyLoaded, table.MoreToLoad();
  }

  /** Two `fetchMoreData` calls on a freshly mounted 45-row table: 40 rows
      after the first, all 45 after the second, which finds a short page. */
  method FortyFiveFetched(table: CollegeTable) returns (second: nat)
    requires table.Settled() && !table.fullyLoaded && table.currentPage == 0
    requires |table.colleges| == 45
    modifies table
    ensures second == 40
    ensures table.sortedData == old(table.sortedData) && table.Valid()
    ensures |table.visibleData| == 45 && table.currentPage == 2
    ensures !table.hasMore && table.fullyLoaded
  {
    table.FetchMoreData();
    second := |table.visibleData|;
    table.FetchMoreData();
  }

  /** Scrolling a settled table to the end: the scroller asks for more
      until the table is fully loaded, which always happens, and then
      every row of the dataset is shown in sorted order. */
  method LoadAll(table: CollegeTable)
    requires table.Settled()
    modifies table
    ensures table.Settled() && table.fullyLoaded && !table.MoreToLoad()
    ensures table.visibleData == table.sortedData && table.sortBy == old(table.sortBy)
  {
    while table.MoreToLoad()
      invariant table.Settled() && table.sortBy == old(table.sortBy)
      decreases if table.fullyLoaded then 0 else |table.sortedData| + 1 - table.currentPage * PerPage
    {
      table.LoadMore();
    }
  }

  /** Any dataset, mounted and scrolled to the end: the table ends fully
      loaded, showing the whole dataset sorted by rank ascending, and the
      scroller stops asking. */
  method ScrollToEnd(colleges: seq<Record>) returns (shown: seq<Record>, loaded: bool, scrollerMore: bool)
    ensures IsSortedPermutation(shown, colleges, SortSpec(Ranking, true))
    ensures loaded && !scrollerMore
  {
    var table := new CollegeTable(colleges);
    LoadAll(table);
    shown, loaded, scrollerMore := table.visibleData, table.fullyLoaded, table.MoreToLoad();
  }

  /** A third load after the 45-row scenario.  Before the sort effect runs
      again it adds nothing.  After it (page 0, all 45 rows shown) a forced
      `fetchMoreData` appends rows 20 to 39 a second time, giving 65 rows.
      In both states the scroller asks for nothing, so it never makes
      that call. */
  method ThirdLoad(colleges: seq<Record>) returns (unsettled: nat, settled: seq<Record>, scrollerMore: bool)
    requires |colleges| == 45
    ensures unsettled == 45
    ensures |settled| == 65 && settled[45..] == settled[20..40]
    ensures !scrollerMore
  {
    var moreBefore, moreAfter;
    unsettled, moreBefore := ThirdLoadUnsettled(colleges);
    settled, moreAfter := ThirdLoadSettled(colleges);
    scrollerMore := moreBefore || moreAfter;
  }

  /** Three `fetchMoreData` calls on 45 rows without the effect re-run:
      the third adds nothing, and the scroller had been told to stop. */
  method ThirdLoadUnsettled(colleges: seq<Record>) returns (shown: nat, scrollerMore: bool)
    requires |colleges| == 45
    ensures shown == 45 && !scrollerMore
  {
    var table := new CollegeTable(colleges);
    var _ := FortyFiveFetched(table);
    scrollerMore := table.MoreToLoad();
    table.FetchMoreData();
    shown := |table.visibleData|;
  }

  /** Two loads with the effect re-run, then a forced `fetchMoreData`: it
      appends page 1 again after all 45 rows, while the scroller had been
      told to stop. */
  method ThirdLoadSettled(colleges: seq<Record>) returns (shown: seq<Record>, scrollerMore: bool)
    requires |colleges| == 45
    ensures |shown| == 65 && shown[45..] == shown[20..40]
    ensures !scrollerMore
  {
    var table := new CollegeTable(colleges);
    FortyFiveLoaded(table);
    scrollerMore := table.MoreToLoad();
    table.FetchMoreData();
    shown := table.visibleData;
  }

  /** Two loads with the effect re-run on a freshly mounted 45-row table
      show all rows on page 0. */
  method FortyFiveLoaded(table: CollegeTable)
    requires table.Settled() && !table.fullyLoaded && table.currentPage == 0
    requires |table.colleges| == 45
    modifies table
    ensures table.visibleData == table.sortedData && |table.sortedData| == 45
    ensures table.currentPage == 0 && table.hasMore && table.fullyLoaded
  {
    table.LoadMore();
    table.LoadMore();
  }

  /** The same two loads with the sort effect that `fullyLoaded` re-runs:
      the table ends on page 0 with every row shown and `hasMore` set
      again, while the scroller still asks for nothing. */
  method FortyFiveRowsSettled(colleges: seq<Record>) returns (shown: nat, page: nat, more: bool, scrollerMore: bool)
    requires |colleges| == 45
    ensures shown == 45 && page == 0 && more && !scrollerMore
  {
    var table := new CollegeTable(colleges);
    FortyFiveLoaded(table);
    shown, page, more, scrollerMore := |table.visibleData|, table.currentPage, table.hasMore, table.MoreToLoad();
  }

  /** Rows holding ranks 1 to 45, sorted by rank ascending, hold them in
      order. */
  lemma SortedRanks(sorted: seq<Record>, colleges: seq<Record>)
    requires IsSortedPermutation(sorted, colleges, SortSpec(Ranking, true))
    requires multiset(ColumnKeys(colleges, Ranking)) == multiset(seq(45, i => Num(i + 1)))
    ensures |sorted| == 45
    ensures forall i :: 0 <= i < 45 ==> sorted[i].ranking == i + 1
  {
    var reference := seq(45, i => Num(i + 1));
    assert KeysSorted(reference, true);
    SortedIffKeysSorted(sorted, SortSpec(Ranking, true));
    MultisetKeys(sorted, colleges, Ranking);
    SortedKeysUnique(ColumnKeys(sorted, Ranking), reference, true);
    assert |sorted| == |ColumnKeys(sorted, Ranking)| == 45;
    forall i | 0 <= i < 45
      ensures sorted[i].ranking == i + 1
    {
      assert ColumnKeys(sorted, Ranking)[i] == Num(i + 1);
    }
  }

  /** Ranks 1 to 45 in any order: the first page shows ranks 1 to 20. */
  method FirstPageOfRanks(colleges: seq<Record>) returns (ranks: seq<int>)
    requires multiset(ColumnKeys(colleges, Ranking)) == multiset(seq(45, i => Num(i + 1)))
    ensures ranks == seq(20, i => i + 1)
  {
    var table := new CollegeTable(colleges);
    var shown, sorted := table.visibleData, table.sortedData;
    SortedRanks(sorted, colleges);
    assert shown == sorted[..20];
    ranks := seq(|shown|, i requires 0 <= i < |shown| => shown[i].ranking);
  }

  /** Two clicks on the fees header sort by fees descending: the first row
      shown has the highest fees of the dataset. */
  method SortByFeesDescending(colleges: seq<Record>) returns (spec: SortSpec, first: Record)
    requires |colleges| > 0
    ensures spec == SortSpec(Fees, false)
    ensures first in colleges
    ensures forall c :: c in colleges ==> c.fees <= first.fees
  {
    var table := new CollegeTable(colleges);
    table.Click(Fees);
    table.Click(Fees);
    spec := table.sortBy;
    HeadLeads(table.sortedData, colleges, spec);
    first := table.visibleData[0];
    assert first in multiset(table.sortedData);
    forall c | c in colleges
      ensures c.fees <= first.fees
    {
      CompareMeaning(first, c, spec);
    }
  }
}
