/** Table lineage of insurance rule revisions
    (proof_agent/contracts/insurance_rules.py): merging row intervals, and the
    validators that compare merged forms. */
module RuleLineage {
  import opened Text

  /** Both ends belong to the interval; one that ends before it starts is empty. */
  datatype Interval = Interval(start: int, end: int)

  predicate Covers(xs: seq<Interval>, n: int) {
    exists i | 0 <= i < |xs| :: xs[i].start <= n <= xs[i].end
  }

  ghost predicate SameCover(xs: seq<Interval>, ys: seq<Interval>) {
    forall n :: Covers(xs, n) <==> Covers(ys, n)
  }

  /** Tuple order. */
  predicate Before(a: Interval, b: Interval) {
    a.start < b.start || (a.start == b.start && a.end <= b.end)
  }

  predicate Sorted(xs: seq<Interval>) {
    forall i, j | 0 <= i < j < |xs| :: Before(xs[i], xs[j])
  }

  /** Neighbours leave at least one integer between them. */
  predicate Gapped(xs: seq<Interval>) {
    forall i, j | 0 <= i < j < |xs| :: xs[i].end + 1 < xs[j].start
  }

  predicate NonEmpty(xs: seq<Interval>) {
    forall i | 0 <= i < |xs| :: xs[i].start <= xs[i].end
  }

  /** The normal form of a finite set of integers. */
  predicate Normal(xs: seq<Interval>) {
    Gapped(xs) && NonEmpty(xs)
  }

  // ----- sorted() -----

  function Insert(x: Interval, xs: seq<Interval>): seq<Interval> {
    if xs == [] || Before(x, xs[0]) then [x] + xs else [xs[0]] + Insert(x, xs[1..])
  }

  function SortIntervals(xs: seq<Interval>): seq<Interval> {
    if xs == [] then [] else Insert(xs[0], SortIntervals(xs[1..]))
  }

  lemma {:induction false} InsertKeepsElements(x: Interval, xs: seq<Interval>)
    ensures multiset(Insert(x, xs)) == multiset(xs) + multiset{x}
  {
    if xs != [] {
      assert xs == [xs[0]] + xs[1..];
      if !Before(x, xs[0]) {
        InsertKeepsElements(x, xs[1..]);
      }
    }
  }

  lemma {:induction false} InsertSorts(x: Interval, xs: seq<Interval>)
    requires Sorted(xs)
    ensures Sorted(Insert(x, xs))
  {
    if xs != [] && !Before(x, xs[0]) {
      var rest := Insert(x, xs[1..]);
      InsertSorts(x, xs[1..]);
      InsertKeepsElements(x, xs[1..]);
      forall j | 0 <= j < |rest| ensures Before(xs[0], rest[j]) {
        assert rest[j] in multiset(rest);
        assert rest[j] == x || rest[j] in xs[1..];
      }
    }
  }

  /** The sorted list is ordered and has the same intervals, so the same cover. */
  lemma {:induction false} SortIntervalsSorts(xs: seq<Interval>)
    ensures Sorted(SortIntervals(xs))
    ensures multiset(SortIntervals(xs)) == multiset(xs)
  {
    if xs != [] {
      SortIntervalsSorts(xs[1..]);
      InsertSorts(xs[0], SortIntervals(xs[1..]));
      InsertKeepsElements(xs[0], SortIntervals(xs[1..]));
      assert xs == [xs[0]] + xs[1..];
    }
  }

  lemma SameIntervalsSameCover(xs: seq<Interval>, ys: seq<Interval>)
    requires multiset(xs) == multiset(ys)
    ensures SameCover(xs, ys)
    ensures NonEmpty(xs) == NonEmpty(ys)
  {
    forall i | 0 <= i < |xs| ensures xs[i] in ys {
      assert xs[i] in multiset(xs);
    }
    forall i | 0 <= i < |ys| ensures ys[i] in xs {
      assert ys[i] in multiset(ys);
    }
  }

  // ----- _merge_integer_intervals -----

  /** What the loop leaves for the intervals not read yet. */
  function Folded(current: Interval, rest: seq<Interval>): seq<Interval>
    decreases |rest|
  {
    if rest == [] then [current]
    else if rest[0].start <= current.end + 1 then
      Folded(Interval(current.start, if rest[0].end > current.end then rest[0].end else current.end), rest[1..])
    else [current] + Folded(rest[0], rest[1..])
  }

  /** The merged form of any collection of intervals. */
  function Merged(xs: seq<Interval>): seq<Interval> {
    var ordered := SortIntervals(xs);
    if ordered == [] then [] else Folded(ordered[0], ordered[1..])
  }

  method MergeIntegerIntervals(intervals: seq<Interval>) returns (merged: seq<Interval>)
    ensures merged == Merged(intervals)
    ensures SameCover(merged, intervals)
    ensures Gapped(merged)
    ensures Normal(merged) <==> NonEmpty(merged)
    ensures NonEmpty(intervals) ==> Normal(merged)
  {
    var ordered := SortIntervals(intervals);
    MergedMeaning(intervals);
    if ordered == [] {
      return [];
    }
    merged := MergeOrdered(ordered);
  }

  /** The loop over the intervals in order. */
  method MergeOrdered(ordered: seq<Interval>) returns (merged: seq<Interval>)
    requires ordered != []
    ensures merged == Folded(ordered[0], ordered[1..])
  {
    merged := [];
    var currentStart, currentEnd := ordered[0].start, ordered[0].end;
    var i := 1;
    while i < |ordered|
      invariant 1 <= i <= |ordered|
      invariant merged + Folded(Interval(currentStart, currentEnd), ordered[i..]) == Folded(ordered[0], ordered[1..])
    {
      var start, end := ordered[i].start, ordered[i].end;
      assert ordered[i..][1..] == ordered[i + 1..];
      if start <= currentEnd + 1 {
        currentEnd := if end > currentEnd then end else currentEnd;
      } else {
        merged := merged + [Interval(currentStart, currentEnd)];
        currentStart, currentEnd := start, end;
      }
      i := i + 1;
    }
    merged := merged + [Interval(currentStart, currentEnd)];
  }

  predicate StartsFrom(xs: seq<Interval>, low: int) {
    forall i | 0 <= i < |xs| :: low <= xs[i].start
  }

  lemma {:induction false} FoldedMeaning(current: Interval, rest: seq<Interval>)
    requires Sorted(rest) && StartsFrom(rest, current.start)
    ensures SameCover(Folded(current, rest), [current] + rest)
    ensures Gapped(Folded(current, rest))
    ensures StartsFrom(Folded(current, rest), current.start)
    ensures current.start <= current.end && NonEmpty(rest) ==> NonEmpty(Folded(current, rest))
    decreases |rest|
  {
    if rest == [] {
      assert [current] + rest == [current];
    } else {
      var next, tail := rest[0], rest[1..];
      assert rest == [next] + tail;
      assert StartsFrom(tail, next.start) && Sorted(tail);
      if next.start <= current.end + 1 {
        var wider := Interval(current.start, if next.end > current.end then next.end else current.end);
        FoldedMeaning(wider, tail);
        WiderCovers(current, next, tail);
      } else {
        FoldedMeaning(next, tail);
        ConsCovers(current, rest, Folded(next, tail));
      }
    }
  }

  /** Any collection merges to a gapped list with the same integers; it is a
      normal form when no interval is empty. */
  lemma MergedMeaning(xs: seq<Interval>)
    ensures SameCover(Merged(xs), xs)
    ensures Gapped(Merged(xs))
    ensures NonEmpty(xs) ==> Normal(Merged(xs))
  {
    var ordered := SortIntervals(xs);
    SortIntervalsSorts(xs);
    SameIntervalsSameCover(ordered, xs);
    if ordered != [] {
      assert forall i | 0 <= i < |ordered[1..]| :: ordered[1..][i] == ordered[i + 1];
      FoldedMeaning(ordered[0], ordered[1..]);
      assert [ordered[0]] + ordered[1..] == ordered;
    }
  }

  /** A set of integers has one normal form. */
  lemma {:induction false} NormalFormIsUnique(xs: seq<Interval>, ys: seq<Interval>)
    requires Normal(xs) && Normal(ys) && SameCover(xs, ys)
    ensures xs == ys
    decreases |xs|
  {
    if xs == [] {
      if ys != [] {
        assert Covers(ys, ys[0].start);
      }
    } else {
      assert Covers(xs, xs[0].start);
      assert ys != [];
      FirstEndsFirst(xs, ys);
      FirstEndsFirst(ys, xs);
      TailsCoverSame(xs, ys);
      NormalFormIsUnique(xs[1..], ys[1..]);
      assert xs == [xs[0]] + xs[1..] && ys == [ys[0]] + ys[1..];
    }
  }

  lemma TailsCoverSame(xs: seq<Interval>, ys: seq<Interval>)
    requires Normal(xs) && Normal(ys) && SameCover(xs, ys) && xs != [] && ys != [] && xs[0] == ys[0]
    ensures Normal(xs[1..]) && Normal(ys[1..]) && SameCover(xs[1..], ys[1..])
  {
    TailCover(xs);
    TailCover(ys);
  }

  lemma FirstEndsFirst(xs: seq<Interval>, ys: seq<Interval>)
    requires Normal(xs) && Normal(ys) && SameCover(xs, ys) && xs != [] && ys != []
    ensures ys[0].start <= xs[0].start
    ensures xs[0].start == ys[0].start ==> ys[0].end <= xs[0].end
  {
    assert Covers(xs, xs[0].start);
    if xs[0].start == ys[0].start && xs[0].end < ys[0].end {
      assert Covers(ys, xs[0].end + 1);
    }
  }

  lemma TailCover(xs: seq<Interval>)
    requires Normal(xs) && xs != []
    ensures Normal(xs[1..])
    ensures forall n :: Covers(xs[1..], n) <==> Covers(xs, n) && xs[0].end < n
  {
    assert xs == [xs[0]] + xs[1..];
    forall n ensures Covers(xs[1..], n) <==> Covers(xs, n) && xs[0].end < n {
      CoversCons(xs[0], xs[1..], n);
    }
  }

  /** Comparing merged forms decides whether two collections of non-empty
      intervals hold the same integers. */
  lemma MergedDecidesSameCover(xs: seq<Interval>, ys: seq<Interval>)
    requires NonEmpty(xs) && NonEmpty(ys)
    ensures Merged(xs) == Merged(ys) <==> SameCover(xs, ys)
  {
    MergedMeaning(xs);
    MergedMeaning(ys);
    if SameCover(xs, ys) {
      NormalFormIsUnique(Merged(xs), Merged(ys));
    }
  }

  /** Empty intervals defeat the comparison: any of them behind all others adds
      no integer and stays in the merged form. */
  lemma EmptyIntervalsDefeatComparison(xs: seq<Interval>, e: Interval)
    requires e.end < e.start && AllBehind(xs, e)
    ensures SameCover(xs + [e], xs)
    ensures Merged(xs + [e]) == Merged(xs) + [e]
  {
    EmptyCoversNothing(xs, e);
    MergedBehind(xs, e);
  }

  lemma EmptyCoversNothing(xs: seq<Interval>, e: Interval)
    requires e.end < e.start
    ensures SameCover(xs + [e], xs)
  {
    forall n ensures Covers(xs + [e], n) <==> Covers(xs, n) {
      assert forall i | 0 <= i < |xs| :: (xs + [e])[i] == xs[i];
    }
  }

  lemma MergedBehind(xs: seq<Interval>, e: Interval)
    requires AllBehind(xs, e)
    ensures Merged(xs + [e]) == Merged(xs) + [e]
  {
    SortBehind(xs, e);
    SortIntervalsSorts(xs);
    var ordered := SortIntervals(xs);
    if ordered == [] {
      assert [] + [e] == [e];
    } else {
      forall i | 0 <= i < |ordered| ensures IsBehind(ordered[i], e) {
        assert ordered[i] in multiset(ordered);
        assert ordered[i] in multiset(xs);
      }
      assert (ordered + [e])[1..] == ordered[1..] + [e];
      FoldedBehind(ordered[0], ordered[1..], e);
    }
  }

  /** e starts after x, with room for an integer between. */
  predicate IsBehind(x: Interval, e: Interval) {
    x.start < e.start && x.end + 1 < e.start
  }

  predicate AllBehind(xs: seq<Interval>, e: Interval) {
    forall i | 0 <= i < |xs| :: IsBehind(xs[i], e)
  }

  lemma {:induction false} InsertBehind(x: Interval, xs: seq<Interval>, e: Interval)
    requires IsBehind(x, e)
    ensures Insert(x, xs + [e]) == Insert(x, xs) + [e]
  {
    if xs == [] {
      assert [x] + [e] == [x, e] && [] + [e] == [e];
    } else {
      assert (xs + [e])[1..] == xs[1..] + [e];
      if !Before(x, xs[0]) {
        InsertBehind(x, xs[1..], e);
      }
    }
  }

  lemma {:induction false} SortBehind(xs: seq<Interval>, e: Interval)
    requires AllBehind(xs, e)
    ensures SortIntervals(xs + [e]) == SortIntervals(xs) + [e]
  {
    if xs == [] {
      assert xs + [e] == [e] && [e][1..] == [];
    } else {
      assert (xs + [e])[1..] == xs[1..] + [e];
      SortBehind(xs[1..], e);
      InsertBehind(xs[0], SortIntervals(xs[1..]), e);
    }
  }

  lemma {:induction false} FoldedBehind(current: Interval, rest: seq<Interval>, e: Interval)
    requires IsBehind(current, e) && AllBehind(rest, e)
    ensures Folded(current, rest + [e]) == Folded(current, rest) + [e]
    decreases |rest|
  {
    if rest == [] {
      assert rest + [e] == [e] && [e][1..] == [];
    } else {
      assert (rest + [e])[1..] == rest[1..] + [e];
      if rest[0].start <= current.end + 1 {
        FoldedBehind(Interval(current.start, if rest[0].end > current.end then rest[0].end else current.end), rest[1..], e);
      } else {
        FoldedBehind(rest[0], rest[1..], e);
        assert [current] + (Folded(rest[0], rest[1..]) + [e]) == [current] + Folded(rest[0], rest[1..]) + [e];
      }
    }
  }

  lemma WiderCovers(current: Interval, next: Interval, tail: seq<Interval>)
    requires current.start <= next.start <= current.end + 1
    ensures SameCover([Interval(current.start, if next.end > current.end then next.end else current.end)] + tail,
                      [current] + ([next] + tail))
  {
    var wider := Interval(current.start, if next.end > current.end then next.end else current.end);
    var xs, ys := [wider] + tail, [current] + ([next] + tail);
    forall n ensures Covers(xs, n) <==> Covers(ys, n) {
      assert xs[0] == wider && ys[0] == current && ys[1] == next;
      if i :| 0 <= i < |xs| && xs[i].start <= n <= xs[i].end {
        if i > 0 {
          assert ys[i + 1] == xs[i];
        }
      }
      if i :| 0 <= i < |ys| && ys[i].start <= n <= ys[i].end {
        if i > 1 {
          assert xs[i - 1] == ys[i];
        }
      }
    }
  }

  lemma ConsCovers(x: Interval, xs: seq<Interval>, ys: seq<Interval>)
    requires SameCover(xs, ys)
    ensures SameCover([x] + ys, [x] + xs)
  {
    forall n ensures Covers([x] + ys, n) <==> Covers([x] + xs, n) {
      CoversCons(x, xs, n);
      CoversCons(x, ys, n);
    }
  }

  lemma CoversCons(x: Interval, xs: seq<Interval>, n: int)
    ensures Covers([x] + xs, n) <==> x.start <= n <= x.end || Covers(xs, n)
  {
    var all := [x] + xs;
    assert all[0] == x;
    if i :| 0 <= i < |xs| && xs[i].start <= n <= xs[i].end {
      assert all[i + 1] == xs[i];
    }
    if i :| 0 <= i < |all| && all[i].start <= n <= all[i].end {
      if i > 0 {
        assert xs[i - 1] == all[i];
      }
    }
  }

  // ----- lineage -----

  datatype BoundingBox = BoundingBox(x0: real, y0: real, x1: real, y1: real)

  datatype PageBox = PageBox(pageNumber: int, bbox: BoundingBox)

  datatype RawCell = RawCell(
    pageNumber: int, row: int, column: int, rowSpan: int, columnSpan: int, bbox: BoundingBox)

  type Cell = c: RawCell | c.pageNumber > 0 && c.row >= 0 && c.column >= 0 && c.rowSpan > 0 && c.columnSpan > 0
    witness RawCell(1, 0, 0, 1, 1, BoundingBox(0.0, 0.0, 0.0, 0.0))

  datatype Lineage = Lineage(
    definitions: seq<string>,
    pageNumbers: seq<int>,
    pageBoxes: seq<PageBox>,
    blockIds: seq<string>,
    tableId: Option<string>,
    tableContinuationId: Option<string>,
    tableTitle: Option<string>,
    tableHeaders: seq<string>,
    rowHeader: Option<string>,
    rowNumbers: seq<int>,
    headerCells: seq<Cell>,
    cells: seq<Cell>)

  datatype UnitKind = Document | Clause | Section | TableRow | RowGroup

  predicate BoxContains(outer: BoundingBox, inner: BoundingBox) {
    && outer.x0 <= inner.x0 <= inner.x1 <= outer.x1
    && outer.y0 <= inner.y0 <= inner.y1 <= outer.y1
  }

  /** sorted(set(values)) */
  function SortedSet(xs: seq<int>): seq<int> {
    if xs == [] then [] else InsertDistinct(xs[0], SortedSet(xs[1..]))
  }

  function InsertDistinct(x: int, xs: seq<int>): seq<int> {
    if xs == [] || x < xs[0] then [x] + xs
    else if x == xs[0] then xs
    else [xs[0]] + InsertDistinct(x, xs[1..])
  }

  predicate Increasing(xs: seq<int>) {
    forall i, j | 0 <= i < j < |xs| :: xs[i] < xs[j]
  }

  lemma {:induction false} InsertDistinctKeepsOrder(x: int, xs: seq<int>)
    requires Increasing(xs)
    ensures Increasing(InsertDistinct(x, xs))
    ensures forall y :: y in InsertDistinct(x, xs) <==> y == x || y in xs
    ensures (forall y | y in xs :: x < y) ==> InsertDistinct(x, xs) == [x] + xs
  {
    if xs != [] {
      assert xs == [xs[0]] + xs[1..];
      if x > xs[0] {
        InsertDistinctKeepsOrder(x, xs[1..]);
        var rest := InsertDistinct(x, xs[1..]);
        forall j | 0 <= j < |rest| ensures xs[0] < rest[j] {
          assert rest[j] in rest;
        }
      }
      assert xs[0] in xs;
    }
  }

  /** The order test accepts exactly the strictly increasing lists. */
  lemma {:induction false} SortedSetFixpoint(xs: seq<int>)
    ensures SortedSet(xs) == xs <==> Increasing(xs)
    ensures Increasing(SortedSet(xs))
  {
    if xs != [] {
      SortedSetFixpoint(xs[1..]);
      InsertDistinctKeepsOrder(xs[0], SortedSet(xs[1..]));
      assert xs == [xs[0]] + xs[1..];
      if Increasing(xs) {
        assert Increasing(xs[1..]);
        forall y | y in xs[1..] ensures xs[0] < y {
        }
      }
    }
  }

  function Anchor(c: Cell): (int, int, int) {
    (c.pageNumber, c.row, c.column)
  }

  function Anchors(cs: seq<Cell>): (keys: seq<(int, int, int)>)
    ensures |keys| == |cs| && forall i | 0 <= i < |cs| :: keys[i] == Anchor(cs[i])
  {
    seq(|cs|, i requires 0 <= i < |cs| => Anchor(cs[i]))
  }

  function BoxPages(boxes: seq<PageBox>): (pages: seq<int>)
    ensures |pages| == |boxes| && forall i | 0 <= i < |boxes| :: pages[i] == boxes[i].pageNumber
  {
    seq(|boxes|, i requires 0 <= i < |boxes| => boxes[i].pageNumber)
  }

  /** {item.page_number: item.bbox}.get(page): the last box of the page. */
  function Region(boxes: seq<PageBox>, page: int): Option<BoundingBox> {
    if boxes == [] then None
    else
      var last := boxes[|boxes| - 1];
      if last.pageNumber == page then Some(last.bbox) else Region(boxes[..|boxes| - 1], page)
  }

  predicate StaysOnPage(boxes: seq<PageBox>, c: Cell) {
    var region := Region(boxes, c.pageNumber);
    region.Some? && BoxContains(region.value, c.bbox)
  }

  /** InsuranceRuleUnitLineage.validate_canonical_lineage */
  predicate CanonicalLineage(l: Lineage) {
    var pages := BoxPages(l.pageBoxes);
    var all := l.headerCells + l.cells;
    && SortedSet(l.pageNumbers) == l.pageNumbers
    && SortedSet(pages) == pages
    && ToSet(pages) == ToSet(l.pageNumbers)
    && Unique(l.blockIds)
    && Unique(l.definitions)
    && SortedSet(l.rowNumbers) == l.rowNumbers
    && !(l.tableContinuationId.Some? && l.tableContinuationId == l.tableId)
    && Unique(Anchors(all))
    && forall c | c in all :: StaysOnPage(l.pageBoxes, c)
  }

  /** No edge of the cell is beyond the edge of a box of its page, and its own edges
      are in order. */
  ghost predicate LiesInABox(boxes: seq<PageBox>, c: Cell) {
    exists i ::
      && 0 <= i < |boxes| && boxes[i].pageNumber == c.pageNumber
      && boxes[i].bbox.x0 <= c.bbox.x0 && c.bbox.x1 <= boxes[i].bbox.x1 && c.bbox.x0 <= c.bbox.x1
      && boxes[i].bbox.y0 <= c.bbox.y0 && c.bbox.y1 <= boxes[i].bbox.y1 && c.bbox.y0 <= c.bbox.y1
  }

  /** Pages and rows listed in order, one box for each page and no other, every
      cell in a box of its page and under an anchor of its own. */
  ghost predicate WellPlaced(l: Lineage) {
    var all := l.headerCells + l.cells;
    && Increasing(l.pageNumbers) && Increasing(l.rowNumbers)
    && BoxPages(l.pageBoxes) == l.pageNumbers
    && (forall c | c in all :: LiesInABox(l.pageBoxes, c))
    && (forall i, j | 0 <= i < j < |all| ::
          all[i].pageNumber != all[j].pageNumber || all[i].row != all[j].row || all[i].column != all[j].column)
    && Distinct(l.blockIds) && Distinct(l.definitions)
    && (l.tableContinuationId.Some? ==> l.tableContinuationId != l.tableId)
  }

  /** The validator accepts exactly the well-placed lineages. */
  lemma CanonicalMeansWellPlaced(l: Lineage)
    ensures CanonicalLineage(l) <==> WellPlaced(l)
  {
    var pages := BoxPages(l.pageBoxes);
    var all := l.headerCells + l.cells;
    SortedSetFixpoint(l.pageNumbers);
    SortedSetFixpoint(pages);
    SortedSetFixpoint(l.rowNumbers);
    if Increasing(pages) && Increasing(l.pageNumbers) && ToSet(pages) == ToSet(l.pageNumbers) {
      SameSetSameOrder(pages, l.pageNumbers);
    }
    UniqueMeansDistinct(l.blockIds);
    UniqueMeansDistinct(l.definitions);
    UniqueMeansDistinct(Anchors(all));
    AnchorsDistinctExactly(all);
    if Increasing(pages) {
      forall c | c in all ensures StaysOnPage(l.pageBoxes, c) <==> LiesInABox(l.pageBoxes, c) {
        RegionIsTheBox(l.pageBoxes, c.pageNumber);
      }
    }
  }

  lemma AnchorsDistinctExactly(cs: seq<Cell>)
    ensures Distinct(Anchors(cs)) <==>
            forall i, j | 0 <= i < j < |cs| ::
              cs[i].pageNumber != cs[j].pageNumber || cs[i].row != cs[j].row || cs[i].column != cs[j].column
  {
    if Distinct(Anchors(cs)) {
      forall i, j | 0 <= i < j < |cs|
        ensures cs[i].pageNumber != cs[j].pageNumber || cs[i].row != cs[j].row || cs[i].column != cs[j].column
      {
        assert Anchors(cs)[i] != Anchors(cs)[j];
      }
    }
  }

  /** With one box a page, the lookup finds it. */
  lemma {:induction false} RegionIsTheBox(boxes: seq<PageBox>, page: int)
    requires Increasing(BoxPages(boxes))
    ensures forall i | 0 <= i < |boxes| && boxes[i].pageNumber == page :: Region(boxes, page) == Some(boxes[i].bbox)
    ensures Region(boxes, page).Some? ==> exists i :: 0 <= i < |boxes| && boxes[i].pageNumber == page
  {
    if boxes != [] {
      var front := boxes[..|boxes| - 1];
      assert BoxPages(front) == BoxPages(boxes)[..|boxes| - 1];
      RegionIsTheBox(front, page);
      forall i | 0 <= i < |boxes| && boxes[i].pageNumber == page
        ensures Region(boxes, page) == Some(boxes[i].bbox)
      {
        if i < |boxes| - 1 {
          assert front[i] == boxes[i] && BoxPages(boxes)[i] < BoxPages(boxes)[|boxes| - 1];
        }
      }
      if Region(front, page).Some? {
        var i :| 0 <= i < |front| && front[i].pageNumber == page;
        assert boxes[i].pageNumber == page;
      }
    }
  }

  lemma {:induction false} SameSetSameOrder(xs: seq<int>, ys: seq<int>)
    requires Increasing(xs) && Increasing(ys) && ToSet(xs) == ToSet(ys)
    ensures xs == ys
    decreases |xs|
  {
    if xs != [] && ys != [] {
      assert xs[0] in ToSet(ys) && ys[0] in ToSet(xs);
      var i :| 0 <= i < |ys| && ys[i] == xs[0];
      var j :| 0 <= j < |xs| && xs[j] == ys[0];
      assert xs[0] == ys[0];
      assert ToSet(xs[1..]) == ToSet(xs) - {xs[0]};
      assert ToSet(ys[1..]) == ToSet(ys) - {ys[0]};
      SameSetSameOrder(xs[1..], ys[1..]);
      assert xs == [xs[0]] + xs[1..] && ys == [ys[0]] + ys[1..];
    } else {
      EmptyToSet(xs);
      EmptyToSet(ys);
    }
  }

  lemma EmptyToSet(xs: seq<int>)
    ensures ToSet(xs) == {} <==> xs == []
  {
    if xs != [] {
      assert xs[0] in ToSet(xs);
    }
  }

  // ----- rows -----

  function CellRows(cs: seq<Cell>): (rows: seq<Interval>)
    ensures |rows| == |cs|
    ensures forall i | 0 <= i < |cs| :: rows[i] == Interval(cs[i].row, cs[i].row + cs[i].rowSpan - 1)
  {
    seq(|cs|, i requires 0 <= i < |cs| => Interval(cs[i].row, cs[i].row + cs[i].rowSpan - 1))
  }

  function SingleRows(rows: seq<int>): (singles: seq<Interval>)
    ensures |singles| == |rows| && forall i | 0 <= i < |rows| :: singles[i] == Interval(rows[i], rows[i])
  {
    seq(|rows|, i requires 0 <= i < |rows| => Interval(rows[i], rows[i]))
  }

  function Columns(cs: seq<Cell>): set<int> {
    set c | c in cs :: c.column
  }

  predicate HasTableFields(l: Lineage) {
    || l.tableId.Some? || l.tableContinuationId.Some? || l.tableTitle.Some? || l.tableHeaders != []
    || l.rowHeader.Some? || l.rowNumbers != [] || l.headerCells != [] || l.cells != []
  }

  /** The rows the cells span are exactly the rows the lineage lists. */
  ghost predicate CellsCoverExactly(l: Lineage) {
    forall n :: (exists c | c in l.cells :: c.row <= n < c.row + c.rowSpan) <==> n in l.rowNumbers
  }

  /** What a coherent revision is, without intervals. */
  ghost predicate Coherent(kind: UnitKind, l: Lineage) {
    if kind.TableRow? || kind.RowGroup? then
      && l.tableId.Some? && l.rowHeader.Some? && l.rowNumbers != []
      && |l.cells| >= 2
      && (exists c, d | c in l.cells && d in l.cells :: c.column != d.column)
      && CellsCoverExactly(l)
      && (if kind.TableRow? then |l.rowNumbers| == 1 else |l.rowNumbers| >= 2)
      && l.blockIds == []
    else
      && l.tableId == None && l.tableContinuationId == None && l.tableTitle == None && l.rowHeader == None
      && l.tableHeaders == [] && l.rowNumbers == [] && l.headerCells == [] && l.cells == []
      && (kind.Clause? || kind.Section? ==> l.blockIds != [])
  }

  lemma TwoColumns(cs: seq<Cell>)
    ensures |Columns(cs)| >= 2 <==> exists c, d | c in cs && d in cs :: c.column != d.column
  {
    if c, d :| c in cs && d in cs && c.column != d.column {
      var pair := {c.column, d.column};
      assert |pair| == 2 && pair <= Columns(cs);
      assert Columns(cs) * pair == pair;
      assert |Columns(cs) - pair| == |Columns(cs)| - |pair|;
    }
    if forall c, d | c in cs && d in cs :: c.column == d.column {
      if cs == [] {
        assert Columns(cs) == {};
      } else {
        assert cs[0] in cs;
        assert Columns(cs) == {cs[0].column};
      }
    }
  }

  lemma RowCovers(l: Lineage)
    ensures SameCover(CellRows(l.cells), SingleRows(l.rowNumbers)) <==> CellsCoverExactly(l)
  {
    forall n
      ensures Covers(CellRows(l.cells), n) <==> exists c | c in l.cells :: c.row <= n < c.row + c.rowSpan
      ensures Covers(SingleRows(l.rowNumbers), n) <==> n in l.rowNumbers
    {
      if c :| c in l.cells && c.row <= n < c.row + c.rowSpan {
        var i :| 0 <= i < |l.cells| && l.cells[i] == c;
        assert CellRows(l.cells)[i].start <= n <= CellRows(l.cells)[i].end;
      }
      if n in l.rowNumbers {
        var i :| 0 <= i < |l.rowNumbers| && l.rowNumbers[i] == n;
        assert SingleRows(l.rowNumbers)[i].start <= n <= SingleRows(l.rowNumbers)[i].end;
      }
    }
  }

  /** InsuranceRuleUnitRevision.validate_coherent_lineage accepts exactly the
      coherent revisions. */
  method ValidateCoherentLineage(kind: UnitKind, l: Lineage) returns (ok: bool)
    ensures ok <==> Coherent(kind, l)
  {
    TwoColumns(l.cells);
    RowCovers(l);
    MergedDecidesSameCover(CellRows(l.cells), SingleRows(l.rowNumbers));
    if kind.TableRow? || kind.RowGroup? {
      if l.tableId.None? || l.rowHeader.None? || l.rowNumbers == [] {
        return false;
      }
      if |l.cells| < 2 || |Columns(l.cells)| < 2 {
        return false;
      }
      var coveredRows := MergeIntegerIntervals(CellRows(l.cells));
      var expectedRows := MergeIntegerIntervals(SingleRows(l.rowNumbers));
      if coveredRows != expectedRows {
        return false;
      }
      if kind.TableRow? && |l.rowNumbers| != 1 {
        return false;
      }
      if kind.RowGroup? && |l.rowNumbers| < 2 {
        return false;
      }
      return l.blockIds == [];
    }
    if HasTableFields(l) {
      return false;
    }
    return !((kind.Clause? || kind.Section?) && l.blockIds == []);
  }
}
