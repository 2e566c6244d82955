/** Stock time frames (blocks.kt): the measurements sorted by date, each
    consecutive pair made into a frame whose items pair the end measurement's
    rows with the start measurement's row for the same product, and whose
    total difference is the stock at the start minus the stock at the end. */
module TimeFrames {
  import opened Wrappers
  import opened Codec
  import opened Projection

  datatype TimeFrameItem = TimeFrameItem(productVersion: ProductVersion, amountStart: int, amountEnd: int, delta: int)

  datatype TimeFrame = TimeFrame(from: string, to: string, timeFrameItems: seq<TimeFrameItem>, totalDiff: int)

  /** The box size of a product, a property the product versions of the
      client model do not carry; it is a parameter here. */
  type BoxSize = ProductVersion -> int

  /** total: loose units in the tray, full boxes, and loose units. */
  function Total(m: ProductMeasurementVersion, boxSize: BoxSize): int
  {
    m.tray + m.boxes * boxSize(m.productVersion) + m.loose
  }

  /** sumOf { total(it) } over a measurement's rows. */
  function SumTotals(rows: seq<ProductMeasurementVersion>, boxSize: BoxSize): int
  {
    if rows == [] then 0 else Total(rows[0], boxSize) + SumTotals(rows[1..], boxSize)
  }

  /** Dates are compared as strings (String.compareTo). */
  predicate DateLeq(a: string, b: string)
  {
    !LexLess(b, a)
  }

  lemma DateLeqTransitive(a: string, b: string, c: string)
    requires DateLeq(a, b) && DateLeq(b, c)
    ensures DateLeq(a, c)
  {
    if LexLess(c, a) {
      if a == b {
      } else if b == c {
      } else {
        LexLessTotal(a, b);
        LexLessTotal(b, c);
        LexLessTransitive(a, b, c);
        LexLessAsymmetric(a, c);
      }
    }
  }

  predicate SortedByDate(ms: seq<MeasurementVersion>)
  {
    forall i, j :: 0 <= i < j < |ms| ==> DateLeq(ms[i].date, ms[j].date)
  }

  /** Inserts m after every element whose date is not later than its own. */
  function InsertByDate(sorted: seq<MeasurementVersion>, m: MeasurementVersion): (r: seq<MeasurementVersion>)
    ensures multiset(r) == multiset(sorted) + multiset{m}
  {
    if sorted == [] then [m]
    else
      var n := |sorted| - 1;
      assert sorted[..n] + [sorted[n]] == sorted;
      if LexLess(m.date, sorted[n].date) then InsertByDate(sorted[..n], m) + [sorted[n]]
      else sorted + [m]
  }

  lemma {:induction false} InsertByDateSorted(sorted: seq<MeasurementVersion>, m: MeasurementVersion)
    requires SortedByDate(sorted)
    ensures SortedByDate(InsertByDate(sorted, m))
  {
    if sorted != [] {
      var n := |sorted| - 1;
      var last := sorted[n];
      if LexLess(m.date, last.date) {
        var front := InsertByDate(sorted[..n], m);
        InsertByDateSorted(sorted[..n], m);
        LexLessAsymmetric(m.date, last.date);
        forall x | x in front ensures DateLeq(x.date, last.date) {
          assert x in multiset(front);
          if x != m {
            assert x in multiset(sorted[..n]);
            var i :| 0 <= i < n && sorted[..n][i] == x;
          }
        }
        SortedSnoc(front, last);
      } else {
        forall i | 0 <= i < n ensures DateLeq(sorted[i].date, m.date) {
          DateLeqTransitive(sorted[i].date, last.date, m.date);
        }
        SortedSnoc(sorted, m);
      }
    }
  }

  lemma SortedSnoc(ms: seq<MeasurementVersion>, m: MeasurementVersion)
    requires SortedByDate(ms)
    requires forall x :: x in ms ==> DateLeq(x.date, m.date)
    ensures SortedByDate(ms + [m])
  {
    forall i, j | 0 <= i < j < |ms| + 1 ensures DateLeq((ms + [m])[i].date, (ms + [m])[j].date) {
      if j == |ms| { assert ms[i] in ms; }
    }
  }

  /** sortedBy { it.date }: a stable sort, by insertion from the left. */
  function SortByDate(ms: seq<MeasurementVersion>): (r: seq<MeasurementVersion>)
    ensures multiset(r) == multiset(ms)
  {
    if ms == [] then []
    else
      var n := |ms| - 1;
      assert ms[..n] + [ms[n]] == ms;
      InsertByDate(SortByDate(ms[..n]), ms[n])
  }

  /** The sort orders by date and keeps every measurement. */
  lemma {:induction false} SortByDateSorted(ms: seq<MeasurementVersion>)
    ensures SortedByDate(SortByDate(ms))
    ensures |SortByDate(ms)| == |ms|
  {
    if ms != [] {
      var n := |ms| - 1;
      SortByDateSorted(ms[..n]);
      InsertByDateSorted(SortByDate(ms[..n]), ms[n]);
    }
    assert |SortByDate(ms)| == |multiset(SortByDate(ms))|;
  }

  /** firstOrNull { it.productVersion.id == id } over the start rows. */
  function FirstMatch(rows: seq<ProductMeasurementVersion>, id: int): (r: Option<ProductMeasurementVersion>)
    ensures r.None? <==> forall i :: 0 <= i < |rows| ==> rows[i].productVersion.id != id
    ensures r.Some? ==> r.value in rows && r.value.productVersion.id == id
  {
    if rows == [] then None
    else if rows[0].productVersion.id == id then Some(rows[0])
    else
      assert forall i :: 1 <= i < |rows| ==> rows[i] == rows[1..][i - 1];
      FirstMatch(rows[1..], id)
  }

  /** It is the row at the first position holding that product. */
  lemma {:induction false} FirstMatchIsFirst(rows: seq<ProductMeasurementVersion>, id: int, i: int)
    requires 0 <= i < |rows| && rows[i].productVersion.id == id
    requires forall j :: 0 <= j < i ==> rows[j].productVersion.id != id
    ensures FirstMatch(rows, id) == Some(rows[i])
  {
    if i > 0 {
      FirstMatchIsFirst(rows[1..], id, i - 1);
    }
  }

  /** An end row and the start row for the same product. */
  datatype Pair = Pair(end: ProductMeasurementVersion, start: ProductMeasurementVersion)

  /** The mapNotNull of blocks: every end row that has a start row for its
      product, paired with the first such start row, in end-row order. */
  function Pairs(startRows: seq<ProductMeasurementVersion>, endRows: seq<ProductMeasurementVersion>): (r: seq<Pair>)
    ensures |r| <= |endRows|
  {
    if endRows == [] then []
    else
      var rest := Pairs(startRows, endRows[1..]);
      match FirstMatch(startRows, endRows[0].productVersion.id)
      case None => rest
      case Some(matching) => [Pair(endRows[0], matching)] + rest
  }

  /** The end rows that have a start row for their product, in order. */
  function Matched(startRows: seq<ProductMeasurementVersion>, endRows: seq<ProductMeasurementVersion>): seq<ProductMeasurementVersion>
  {
    if endRows == [] then []
    else
      var rest := Matched(startRows, endRows[1..]);
      if FirstMatch(startRows, endRows[0].productVersion.id).Some? then [endRows[0]] + rest else rest
  }

  /** The matched rows are the end rows whose product the start holds. */
  lemma {:induction false} MatchedMembers(startRows: seq<ProductMeasurementVersion>, endRows: seq<ProductMeasurementVersion>)
    ensures forall x :: x in Matched(startRows, endRows) <==> x in endRows && FirstMatch(startRows, x.productVersion.id).Some?
  {
    if endRows != [] {
      MatchedMembers(startRows, endRows[1..]);
      assert forall x :: x in endRows <==> x == endRows[0] || x in endRows[1..];
    }
  }

  /** A frame's pairs are exactly the matched end rows, in end-row order,
      each with the first start row of its product. */
  lemma {:induction false} PairsAreMatchedRows(startRows: seq<ProductMeasurementVersion>, endRows: seq<ProductMeasurementVersion>)
    ensures |Pairs(startRows, endRows)| == |Matched(startRows, endRows)|
    ensures forall i :: 0 <= i < |Pairs(startRows, endRows)| ==>
              && Pairs(startRows, endRows)[i].end == Matched(startRows, endRows)[i]
              && Some(Pairs(startRows, endRows)[i].start) == FirstMatch(startRows, Matched(startRows, endRows)[i].productVersion.id)
  {
    if endRows != [] {
      var ps, ms := Pairs(startRows, endRows[1..]), Matched(startRows, endRows[1..]);
      PairsAreMatchedRows(startRows, endRows[1..]);
      var first := FirstMatch(startRows, endRows[0].productVersion.id);
      if first.Some? {
        var p := Pairs(startRows, endRows);
        var m := Matched(startRows, endRows);
        assert p == [Pair(endRows[0], first.value)] + ps;
        assert m == [endRows[0]] + ms;
        forall i | 0 < i < |p| ensures p[i] == ps[i - 1] && m[i] == ms[i - 1] {
        }
      }
    }
  }

  /** TimeFrameItem(m.productVersion, total(m), total(matching), 0) as
      written: amountStart is the END row's total and amountEnd the START
      row's. */
  function ItemOf(p: Pair, boxSize: BoxSize): TimeFrameItem
  {
    TimeFrameItem(p.end.productVersion, Total(p.end, boxSize), Total(p.start, boxSize), 0)
  }

  /** The item with the amounts the field names promise: the start row's
      total at the start, the end row's at the end. */
  function ItemOfFixed(p: Pair, boxSize: BoxSize): TimeFrameItem
  {
    TimeFrameItem(p.end.productVersion, Total(p.start, boxSize), Total(p.end, boxSize), 0)
  }

  /** zipWithNext's frame for a start and an end measurement. */
  function Frame(s: MeasurementVersion, e: MeasurementVersion, boxSize: BoxSize): TimeFrame
  {
    var pairs := Pairs(s.measurements, e.measurements);
    var items := seq(|pairs|, i requires 0 <= i < |pairs| => ItemOf(pairs[i], boxSize));
    TimeFrame(s.date, e.date, items, SumTotals(s.measurements, boxSize) - SumTotals(e.measurements, boxSize))
  }

  /** zipWithNext { s, e -> frame }: one frame per consecutive pair. */
  function Frames(sorted: seq<MeasurementVersion>, boxSize: BoxSize): seq<TimeFrame>
  {
    if |sorted| == 0 then []
    else seq(|sorted| - 1, i requires 0 <= i < |sorted| - 1 => Frame(sorted[i], sorted[i + 1], boxSize))
  }

  /** blocks: the frames of the date-sorted measurements. */
  function Blocks(measurements: seq<MeasurementVersion>, boxSize: BoxSize): seq<TimeFrame>
  {
    Frames(SortByDate(measurements), boxSize)
  }

  /** Frame i runs from the i-th to the (i+1)-th measurement and its total
      difference is the stock of the one minus the stock of the other. */
  lemma FramesSpan(sorted: seq<MeasurementVersion>, boxSize: BoxSize)
    ensures |Frames(sorted, boxSize)| == if |sorted| == 0 then 0 else |sorted| - 1
    ensures forall i :: 0 <= i < |Frames(sorted, boxSize)| ==>
              && Frames(sorted, boxSize)[i].from == sorted[i].date
              && Frames(sorted, boxSize)[i].to == sorted[i + 1].date
              && Frames(sorted, boxSize)[i].totalDiff
                 == SumTotals(sorted[i].measurements, boxSize) - SumTotals(sorted[i + 1].measurements, boxSize)
  {
    var frames := Frames(sorted, boxSize);
    forall i | 0 <= i < |frames|
      ensures frames[i].from == sorted[i].date && frames[i].to == sorted[i + 1].date
      ensures frames[i].totalDiff == SumTotals(sorted[i].measurements, boxSize) - SumTotals(sorted[i + 1].measurements, boxSize)
    {
      assert frames[i] == Frame(sorted[i], sorted[i + 1], boxSize);
    }
  }

  /** There are max(0, n - 1) frames, one per consecutive pair of dates in
      sorted order: every frame goes forward in time and each frame ends
      where the next one starts. */
  lemma BlocksChain(measurements: seq<MeasurementVersion>, boxSize: BoxSize)
    ensures var n := |measurements|;
            |Blocks(measurements, boxSize)| == if n == 0 then 0 else n - 1
    ensures var frames := Blocks(measurements, boxSize);
            && (forall i :: 0 <= i < |frames| ==> DateLeq(frames[i].from, frames[i].to))
            && (forall i :: 0 <= i < |frames| - 1 ==> frames[i].to == frames[i + 1].from)
  {
    var sorted := SortByDate(measurements);
    SortByDateSorted(measurements);
    FramesSpan(sorted, boxSize);
  }

  /** A frame's items are the end rows whose product the start measurement
      holds, in end-row order; as written each carries the end row's total
      as amountStart, the first matching start row's total as amountEnd, and
      a delta of 0. */
  lemma FrameItems(s: MeasurementVersion, e: MeasurementVersion, boxSize: BoxSize)
    ensures var items := Frame(s, e, boxSize).timeFrameItems;
            var rows := Matched(s.measurements, e.measurements);
            && |items| == |rows|
            && forall i :: 0 <= i < |items| ==>
                 && items[i].productVersion == rows[i].productVersion
                 && items[i].amountStart == Total(rows[i], boxSize)
                 && FirstMatch(s.measurements, rows[i].productVersion.id).Some?
                 && items[i].amountEnd == Total(FirstMatch(s.measurements, rows[i].productVersion.id).value, boxSize)
                 && items[i].delta == 0
  {
    PairsAreMatchedRows(s.measurements, e.measurements);
  }

  /** As written, an item reports the stock the other way round: a product
      counted 10 at the start and 4 at the end gets amountStart 4 and
      amountEnd 10, while the frame's totalDiff is 6. */
  lemma ItemAmountsSwapped()
    ensures var p := ProductVersion(0, 0, "sencha", FlavourVersion(0, 0, "green"));
            var s := MeasurementVersion(0, 0, "2024-01-01", [ProductMeasurementVersion(0, 0, p, 10, 0, 0)]);
            var e := MeasurementVersion(1, 0, "2024-02-01", [ProductMeasurementVersion(0, 0, p, 4, 0, 0)]);
            var f := Frame(s, e, _ => 1);
            && f.totalDiff == 6
            && |f.timeFrameItems| == 1
            && f.timeFrameItems[0].amountStart == 4
            && f.timeFrameItems[0].amountEnd == 10
  {
  }

  // ------------------------------------------- the items against totalDiff

  /** Every row counts a different product. */
  predicate DistinctProducts(rows: seq<ProductMeasurementVersion>)
  {
    forall i, j :: 0 <= i < j < |rows| ==> rows[i].productVersion.id != rows[j].productVersion.id
  }

  /** Every row of `rows` has a row of `other` for its product. */
  predicate AllMatched(other: seq<ProductMeasurementVersion>, rows: seq<ProductMeasurementVersion>)
  {
    forall j :: 0 <= j < |rows| ==> FirstMatch(other, rows[j].productVersion.id).Some?
  }

  /** Two counts of the same products, each product counted once. */
  predicate SameProducts(startRows: seq<ProductMeasurementVersion>, endRows: seq<ProductMeasurementVersion>)
  {
    && DistinctProducts(startRows) && DistinctProducts(endRows)
    && AllMatched(startRows, endRows) && AllMatched(endRows, startRows)
  }

  /** No row occurs twice. */
  predicate DistinctRows(rows: seq<ProductMeasurementVersion>)
  {
    forall i, j :: 0 <= i < j < |rows| ==> rows[i] != rows[j]
  }

  /** The stock an item reports as used: amountStart - amountEnd, summed. */
  function ItemDiffs(items: seq<TimeFrameItem>): int
  {
    if items == [] then 0 else items[0].amountStart - items[0].amountEnd + ItemDiffs(items[1..])
  }

  lemma {:induction false} SumTotalsAppend(a: seq<ProductMeasurementVersion>, b: seq<ProductMeasurementVersion>, boxSize: BoxSize)
    ensures SumTotals(a + b, boxSize) == SumTotals(a, boxSize) + SumTotals(b, boxSize)
  {
    if a == [] {
      assert a + b == b;
    } else {
      assert (a + b)[1..] == a[1..] + b;
      SumTotalsAppend(a[1..], b, boxSize);
    }
  }

  /** Taking row k out of a list takes its total out of the sum. */
  lemma SumTotalsRemove(b: seq<ProductMeasurementVersion>, k: int, boxSize: BoxSize)
    requires 0 <= k < |b|
    ensures SumTotals(b, boxSize) == Total(b[k], boxSize) + SumTotals(b[..k] + b[k + 1..], boxSize)
  {
    var before, after := b[..k], b[k + 1..];
    var tail := [b[k]] + after;
    assert tail[1..] == after;
    assert SumTotals(tail, boxSize) == Total(b[k], boxSize) + SumTotals(after, boxSize);
    assert b == before + tail;
    SumTotalsAppend(before, tail, boxSize);
    SumTotalsAppend(before, after, boxSize);
  }

  /** Taking row k out of a list of distinct rows leaves the other rows,
      still distinct. */
  lemma RemoveDistinct(b: seq<ProductMeasurementVersion>, k: int)
    requires 0 <= k < |b| && DistinctRows(b)
    ensures DistinctRows(b[..k] + b[k + 1..])
    ensures forall y :: y in b[..k] + b[k + 1..] <==> y in b && y != b[k]
  {
    var rest := b[..k] + b[k + 1..];
    assert forall i :: 0 <= i < |rest| ==> rest[i] == if i < k then b[i] else b[i + 1];
    forall y | y in b && y != b[k] ensures y in rest {
      var j :| 0 <= j < |b| && b[j] == y;
      assert if j < k then rest[j] == y else rest[j - 1] == y;
    }
  }

  /** A non-empty list holds its first row. */
  lemma FirstRowIsMember(b: seq<ProductMeasurementVersion>)
    ensures |b| > 0 ==> b[0] in b
  {
  }

  /** Two lists of distinct rows holding the same rows have the same total
      stock, whatever their order. */
  lemma {:induction false} SumTotalsSameRows(a: seq<ProductMeasurementVersion>, b: seq<ProductMeasurementVersion>, boxSize: BoxSize)
    requires DistinctRows(a) && DistinctRows(b)
    requires forall x :: x in a <==> x in b
    ensures SumTotals(a, boxSize) == SumTotals(b, boxSize)
    decreases |a|
  {
    if a == [] {
      FirstRowIsMember(b);
    } else {
      assert a[0] in b;
      var k :| 0 <= k < |b| && b[k] == a[0];
      var rest := b[..k] + b[k + 1..];
      RemoveDistinct(b, k);
      RemoveDistinct(a, 0);
      assert a[..0] + a[1..] == a[1..];
      forall y ensures y in a[1..] <==> y in rest {
        assert y in a[1..] <==> y in a && y != a[0];
        assert y in rest <==> y in b && y != b[k];
      }
      SumTotalsSameRows(a[1..], rest, boxSize);
      SumTotalsRemove(b, k, boxSize);
    }
  }

  /** For each end row, the first start row of its product. */
  function StartsOf(startRows: seq<ProductMeasurementVersion>, endRows: seq<ProductMeasurementVersion>): seq<ProductMeasurementVersion>
    requires AllMatched(startRows, endRows)
  {
    seq(|endRows|, j requires 0 <= j < |endRows| => FirstMatch(startRows, endRows[j].productVersion.id).value)
  }

  /** When every end row is matched, item j pairs end row j with the first
      start row of its product. */
  lemma {:induction false} PairsWhenAllMatched(startRows: seq<ProductMeasurementVersion>, endRows: seq<ProductMeasurementVersion>)
    requires AllMatched(startRows, endRows)
    ensures |Pairs(startRows, endRows)| == |endRows|
    ensures forall j :: 0 <= j < |endRows| ==> Pairs(startRows, endRows)[j] == Pair(endRows[j], StartsOf(startRows, endRows)[j])
  {
    if endRows != [] {
      var tail := endRows[1..];
      assert AllMatched(startRows, tail) by {
        forall j | 0 <= j < |tail| ensures FirstMatch(startRows, tail[j].productVersion.id).Some? {
          assert tail[j] == endRows[j + 1];
        }
      }
      PairsWhenAllMatched(startRows, tail);
      var p := Pairs(startRows, endRows);
      assert p == [Pair(endRows[0], StartsOf(startRows, endRows)[0])] + Pairs(startRows, tail);
      forall j | 0 < j < |endRows| ensures p[j] == Pair(endRows[j], StartsOf(startRows, endRows)[j]) {
        assert p[j] == Pairs(startRows, tail)[j - 1];
        assert tail[j - 1] == endRows[j];
      }
    }
  }

  /** Over two measurements of the same products, the start rows picked for
      the end rows are the start rows, each once. */
  lemma StartsOfSameRows(startRows: seq<ProductMeasurementVersion>, endRows: seq<ProductMeasurementVersion>)
    requires SameProducts(startRows, endRows)
    ensures DistinctRows(StartsOf(startRows, endRows)) && DistinctRows(startRows)
    ensures forall x :: x in StartsOf(startRows, endRows) <==> x in startRows
  {
    var st := StartsOf(startRows, endRows);
    forall j | 0 <= j < |st| ensures st[j] in startRows && st[j].productVersion.id == endRows[j].productVersion.id {
    }
    StartsOfCovers(startRows, endRows);
  }

  /** Every start row is picked for the end row of its product. */
  lemma StartsOfCovers(startRows: seq<ProductMeasurementVersion>, endRows: seq<ProductMeasurementVersion>)
    requires SameProducts(startRows, endRows)
    ensures forall x :: x in startRows ==> x in StartsOf(startRows, endRows)
  {
    var st := StartsOf(startRows, endRows);
    forall x | x in startRows ensures x in st {
      var i :| 0 <= i < |startRows| && startRows[i] == x;
      var m := FirstMatch(endRows, x.productVersion.id).value;
      var j :| 0 <= j < |endRows| && endRows[j] == m;
      var i2 :| 0 <= i2 < |startRows| && startRows[i2] == st[j];
      assert i2 == i;
    }
  }

  /** The sum over the items of amountStart - amountEnd, when each item's
      amounts are the totals of one row of each list. */
  lemma {:induction false} ItemDiffsBySides(items: seq<TimeFrameItem>, a: seq<ProductMeasurementVersion>,
                                            b: seq<ProductMeasurementVersion>, boxSize: BoxSize)
    requires |items| == |a| == |b|
    requires forall j :: 0 <= j < |items| ==>
               items[j].amountStart == Total(a[j], boxSize) && items[j].amountEnd == Total(b[j], boxSize)
    ensures ItemDiffs(items) == SumTotals(a, boxSize) - SumTotals(b, boxSize)
  {
    if items != [] {
      forall j | 0 <= j < |items| - 1
        ensures items[1..][j].amountStart == Total(a[1..][j], boxSize)
        ensures items[1..][j].amountEnd == Total(b[1..][j], boxSize)
      {
        assert items[1..][j] == items[j + 1] && a[1..][j] == a[j + 1] && b[1..][j] == b[j + 1];
      }
      ItemDiffsBySides(items[1..], a[1..], b[1..], boxSize);
    }
  }

  /** The frame with the amounts the field names promise. */
  function FrameFixed(s: MeasurementVersion, e: MeasurementVersion, boxSize: BoxSize): TimeFrame
  {
    var pairs := Pairs(s.measurements, e.measurements);
    var items := seq(|pairs|, i requires 0 <= i < |pairs| => ItemOfFixed(pairs[i], boxSize));
    TimeFrame(s.date, e.date, items, SumTotals(s.measurements, boxSize) - SumTotals(e.measurements, boxSize))
  }

  /** As written, over two measurements of the same products the items
      account for minus the frame's totalDiff: stock used shows as stock
      gained. */
  lemma FrameItemsOpposeTotalDiff(s: MeasurementVersion, e: MeasurementVersion, boxSize: BoxSize)
    requires SameProducts(s.measurements, e.measurements)
    ensures ItemDiffs(Frame(s, e, boxSize).timeFrameItems) == -Frame(s, e, boxSize).totalDiff
  {
    var sr, er := s.measurements, e.measurements;
    PairsWhenAllMatched(sr, er);
    ItemDiffsBySides(Frame(s, e, boxSize).timeFrameItems, er, StartsOf(sr, er), boxSize);
    StartsOfSameRows(sr, er);
    SumTotalsSameRows(StartsOf(sr, er), sr, boxSize);
  }

  /** With the amounts the right way round, item i is for matched end row i,
      with amountStart the first matching start row's total and amountEnd
      the end row's total. */
  lemma FrameFixedItems(s: MeasurementVersion, e: MeasurementVersion, boxSize: BoxSize)
    ensures var items := FrameFixed(s, e, boxSize).timeFrameItems;
            var rows := Matched(s.measurements, e.measurements);
            && |items| == |rows|
            && forall i :: 0 <= i < |items| ==>
                 && items[i].productVersion == rows[i].productVersion
                 && FirstMatch(s.measurements, rows[i].productVersion.id).Some?
                 && items[i].amountStart == Total(FirstMatch(s.measurements, rows[i].productVersion.id).value, boxSize)
                 && items[i].amountEnd == Total(rows[i], boxSize)
                 && items[i].delta == 0
  {
    PairsAreMatchedRows(s.measurements, e.measurements);
  }

  /** and over two measurements of the same products the items account for
      exactly the frame's totalDiff. */
  lemma FrameFixedMatchesTotalDiff(s: MeasurementVersion, e: MeasurementVersion, boxSize: BoxSize)
    requires SameProducts(s.measurements, e.measurements)
    ensures ItemDiffs(FrameFixed(s, e, boxSize).timeFrameItems) == FrameFixed(s, e, boxSize).totalDiff
  {
    var sr, er := s.measurements, e.measurements;
    PairsWhenAllMatched(sr, er);
    ItemDiffsBySides(FrameFixed(s, e, boxSize).timeFrameItems, StartsOf(sr, er), er, boxSize);
    StartsOfSameRows(sr, er);
    SumTotalsSameRows(StartsOf(sr, er), sr, boxSize);
  }
}
