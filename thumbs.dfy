/**
 * The thumbnail grid: greedy row packing, the rows in view, the row buffer
 * around them, the rows to build and tear down, and the page that becomes
 * current when it scrolls out of view. Also the column count and thumbnail
 * width the grid is laid out with.
 */
module ThumbnailLayout {
  import opened Js
  import opened Book

  /** A thumbnail cell: the page it shows and its horizontal offset in the row. */
  datatype Leaf = Leaf(num: int, left: int)

  datatype Row = Row(leafs: seq<Leaf>, height: int, top: int)

  /**
   * `leafMap`: a JavaScript array of rows, which can have a hole (`None`)
   * where no row was ever created.
   */
  type LeafMap = seq<Option<Row>>

  function Max(a: int, b: int): int {
    if a < b then b else a
  }

  /**
   * The thumbnail height of each page, `floor(height * thumbWidth / width)`,
   * for a page of positive width (the layout is only asked about those).
   */
  function ThumbHeights(b: Book, thumbWidth: int): int -> int {
    index => if b.width(index) > 0 then (b.height(index) * thumbWidth) / b.width(index) else 0
  }

  /** The height a row reaches: it starts at 0 and grows to each thumbnail's height. */
  function RowHeight(th: int -> int, leafs: seq<Leaf>): (h: int)
    ensures h >= 0
    ensures forall k :: 0 <= k < |leafs| ==> th(leafs[k].num) <= h
  {
    if leafs == [] then 0
    else
      var h0 := RowHeight(th, leafs[..|leafs| - 1]);
      var last := th(leafs[|leafs| - 1].num);
      if last > h0 then last else h0
  }

  /** A row's height is 0 or the height of one of its thumbnails: it is their maximum. */
  lemma {:induction false} RowHeightAttained(th: int -> int, leafs: seq<Leaf>)
    ensures var h := RowHeight(th, leafs);
            h == 0 || exists k :: 0 <= k < |leafs| && h == th(leafs[k].num)
  {
    if leafs != [] {
      var n := |leafs| - 1;
      RowHeightAttained(th, leafs[..n]);
      var h0 := RowHeight(th, leafs[..n]);
      if th(leafs[n].num) <= h0 && h0 != 0 {
        var k :| 0 <= k < n && h0 == th(leafs[..n][k].num);
        assert leafs[..n][k] == leafs[k];
      }
    }
  }

  /** Appending a cell raises the row's height to that thumbnail's if it is taller. */
  lemma RowHeightSnoc(th: int -> int, leafs: seq<Leaf>, l: Leaf)
    ensures RowHeight(th, leafs + [l]) == Max(RowHeight(th, leafs), th(l.num))
  {
    assert (leafs + [l])[..|leafs|] == leafs;
  }

  /** Consecutive cells of `leafs` sit `step` apart. */
  predicate Stepped(leafs: seq<Leaf>, step: int) {
    forall k :: 0 < k < |leafs| ==> leafs[k].left == leafs[k - 1].left + step
  }

  lemma SteppedSnoc(leafs: seq<Leaf>, step: int, l: Leaf)
    requires Stepped(leafs, step) && |leafs| >= 1 && l.left == leafs[|leafs| - 1].left + step
    ensures Stepped(leafs + [l], step)
  {
    var leafs' := leafs + [l];
    forall k | 0 < k < |leafs'|
      ensures leafs'[k].left == leafs'[k - 1].left + step
    {
      if k < |leafs| {
        assert leafs'[k] == leafs[k] && leafs'[k - 1] == leafs[k - 1];
      }
    }
  }

  function Nums(leafs: seq<Leaf>): (ns: seq<int>)
    ensures |ns| == |leafs| && forall k :: 0 <= k < |leafs| ==> ns[k] == leafs[k].num
  {
    seq(|leafs|, k requires 0 <= k < |leafs| => leafs[k].num)
  }

  function RowNums(x: Option<Row>): seq<int> {
    if x.None? then [] else Nums(x.value.leafs)
  }

  /** The pages of the grid, row after row. */
  function Flatten(m: LeafMap): seq<int> {
    if |m| == 0 then [] else Flatten(m[..|m| - 1]) + RowNums(m[|m| - 1])
  }

  /** The offset just past a row's last cell: where its next cell would go. */
  function RowEnd(row: Row, step: int): int {
    if |row.leafs| == 0 then 0 else row.leafs[|row.leafs| - 1].left + step
  }

  /**
   * A row as the packing loop leaves it: at least one cell, the first at
   * offset 0 and each next one `step` further, every cell after the first
   * fitting in `viewWidth`, and the row as tall as its tallest thumbnail.
   */
  predicate RowPacked(th: int -> int, row: Row, step: int, viewWidth: int) {
    && |row.leafs| >= 1
    && row.leafs[0].left == 0
    && Stepped(row.leafs, step)
    && (|row.leafs| == 1 || RowEnd(row, step) <= viewWidth)
    && row.height == RowHeight(th, row.leafs)
    && row.top == 0
  }

  /**
   * The shape the packing leaves the grid in, row by row: only row 0 can be
   * missing, and it is exactly when a cell does not fit even alone; each row
   * is packed; a row is closed exactly when one more cell would pass
   * `viewWidth`.
   */
  predicate Grid(th: int -> int, step: int, viewWidth: int, m: LeafMap) {
    if |m| == 0 then true
    else
      var r := |m| - 1;
      && Grid(th, step, viewWidth, m[..r])
      && (m[r].None? <==> r == 0 && step > viewWidth)
      && (m[r].Some? ==> RowPacked(th, m[r].value, step, viewWidth))
      && (r > 0 && m[r - 1].Some? ==> RowEnd(m[r - 1].value, step) + step > viewWidth)
  }

  /** The greedy packing of `order` with cells `step` wide. */
  predicate Packed(th: int -> int, order: seq<int>, step: int, viewWidth: int, m: LeafMap) {
    && Flatten(m) == order
    && (|m| == 0 <==> |order| == 0)
    && Grid(th, step, viewWidth, m)
  }

  /** Only row 0 can be a hole, and it is one exactly when a cell does not fit even alone. */
  lemma {:induction false} GridHoles(th: int -> int, step: int, viewWidth: int, m: LeafMap)
    requires Grid(th, step, viewWidth, m)
    ensures forall r :: 0 <= r < |m| ==> (m[r].None? <==> r == 0 && step > viewWidth)
  {
    if |m| > 0 {
      var n := |m| - 1;
      var init := m[..n];
      GridHoles(th, step, viewWidth, init);
      forall r | 0 <= r < n
        ensures (m[r].None? <==> r == 0 && step > viewWidth)
      {
        assert init[r] == m[r];
      }
    }
  }

  /** Every present row of the grid is packed. */
  lemma {:induction false} GridRowsPacked(th: int -> int, step: int, viewWidth: int, m: LeafMap)
    requires Grid(th, step, viewWidth, m)
    ensures forall r :: 0 <= r < |m| && m[r].Some? ==> RowPacked(th, m[r].value, step, viewWidth)
  {
    if |m| > 0 {
      var n := |m| - 1;
      var init := m[..n];
      GridRowsPacked(th, step, viewWidth, init);
      forall r | 0 <= r < n && m[r].Some?
        ensures RowPacked(th, m[r].value, step, viewWidth)
      {
        assert init[r] == m[r];
      }
    }
  }

  /** Every row but the last is full: one more cell would pass the view's width. */
  lemma {:induction false} GridRowsFull(th: int -> int, step: int, viewWidth: int, m: LeafMap)
    requires Grid(th, step, viewWidth, m)
    ensures forall r :: 0 <= r < |m| - 1 && m[r].Some? ==> RowEnd(m[r].value, step) + step > viewWidth
  {
    if |m| > 0 {
      var n := |m| - 1;
      var init := m[..n];
      GridRowsFull(th, step, viewWidth, init);
      forall r | 0 <= r < n - 1 && m[r].Some?
        ensures RowEnd(m[r].value, step) + step > viewWidth
      {
        assert init[r] == m[r];
      }
    }
  }

  lemma StepMul(k: int, step: int)
    ensures (k - 1) * step + step == k * step
  {
  }

  /** In a packed row, cell `k` sits at offset `k * step`. */
  lemma {:induction false} CellOffset(th: int -> int, row: Row, step: int, viewWidth: int, k: int)
    requires RowPacked(th, row, step, viewWidth)
    requires 0 <= k < |row.leafs|
    ensures row.leafs[k].left == k * step
    decreases k
  {
    if k > 0 {
      CellOffset(th, row, step, viewWidth, k - 1);
      StepMul(k, step);
    }
  }

  /** Every cell of a packed row, and the row's end, at a multiple of `step`. */
  lemma CellOffsets(th: int -> int, row: Row, step: int, viewWidth: int)
    requires RowPacked(th, row, step, viewWidth)
    ensures forall k :: 0 <= k < |row.leafs| ==> row.leafs[k].left == k * step
    ensures RowEnd(row, step) == |row.leafs| * step
  {
    forall k | 0 <= k < |row.leafs|
      ensures row.leafs[k].left == k * step
    {
      CellOffset(th, row, step, viewWidth, k);
    }
    StepMul(|row.leafs|, step);
  }

  /**
   * The page-view height the packing computes: each row adds the padding and
   * the height its row had when the row's first cell was placed.
   */
  function FirstCellBottom(th: int -> int, m: LeafMap, thumbPadding: int): int {
    if |m| == 0 then 0
    else
      var last := m[|m| - 1];
      FirstCellBottom(th, m[..|m| - 1], thumbPadding)
        + if last.None? || |last.value.leafs| == 0 then 0 else thumbPadding + Max(0, th(last.value.leafs[0].num))
  }

  lemma NumsSnoc(leafs: seq<Leaf>, l: Leaf)
    ensures Nums(leafs + [l]) == Nums(leafs) + [l.num]
  {
    assert Nums(leafs + [l]) == Nums(leafs) + [l.num];
  }

  lemma TakeSnoc(s: seq<int>, q: int)
    requires 0 <= q < |s|
    ensures s[..q + 1] == s[..q] + [s[q]]
  {
  }

  /** One more cell that fits keeps a row packed. */
  lemma {:induction false} RowGrows(th: int -> int, row: Row, step: int, viewWidth: int, index: int)
    requires RowPacked(th, row, step, viewWidth)
    requires RowEnd(row, step) + step <= viewWidth
    ensures RowPacked(th, Row(row.leafs + [Leaf(index, RowEnd(row, step))], Max(row.height, th(index)), row.top), step, viewWidth)
  {
    var leaf := Leaf(index, RowEnd(row, step));
    RowHeightSnoc(th, row.leafs, leaf);
    SteppedSnoc(row.leafs, step, leaf);
  }

  /** Placing one more cell in the open last row keeps the packing. */
  lemma {:induction false} ExtendRow(th: int -> int, order: seq<int>, step: int, viewWidth: int, m: LeafMap, index: int, m': LeafMap)
    requires Packed(th, order, step, viewWidth, m) && |m| > 0 && m[|m| - 1].Some?
    requires RowEnd(m[|m| - 1].value, step) + step <= viewWidth
    requires var row := m[|m| - 1].value;
             m' == m[|m| - 1 := Some(Row(row.leafs + [Leaf(index, RowEnd(row, step))], Max(row.height, th(index)), row.top))]
    ensures Packed(th, order + [index], step, viewWidth, m')
  {
    var row := m[|m| - 1].value;
    var leaf := Leaf(index, RowEnd(row, step));
    assert m'[..|m| - 1] == m[..|m| - 1];
    assert RowPacked(th, row, step, viewWidth);
    RowGrows(th, row, step, viewWidth, index);
    NumsSnoc(row.leafs, leaf);
  }

  /**
   * Opening a new row for one more cell keeps the packing: the first row of
   * the grid is left a hole when a cell does not fit even alone.
   */
  lemma {:induction false} StartRow(th: int -> int, order: seq<int>, step: int, viewWidth: int, m: LeafMap, index: int, m': LeafMap)
    requires Packed(th, order, step, viewWidth, m)
    requires |m| == 0 || (m[|m| - 1].Some? && RowEnd(m[|m| - 1].value, step) + step > viewWidth)
    requires m' == (if |m| == 0 && step > viewWidth then [None] else m) + [Some(Row([Leaf(index, 0)], Max(0, th(index)), 0))]
    ensures Packed(th, order + [index], step, viewWidth, m')
  {
    var prefix: LeafMap := if |m| == 0 && step > viewWidth then [None] else m;
    var row := Row([Leaf(index, 0)], Max(0, th(index)), 0);
    assert m'[..|prefix|] == prefix;
    assert Nums(row.leafs) == [index];
    assert row.leafs[..0] == [];
    assert RowPacked(th, row, step, viewWidth);
    if |m| == 0 && step > viewWidth {
      assert prefix[..0] == [];
      assert Grid(th, step, viewWidth, prefix);
    }
  }

  /**
   * The greedy packing as a definition, page by page: a page opens a new row
   * (row 0 left a hole when a cell does not fit even alone) unless its cell
   * fits after the open row's cells; each row is as tall as its tallest
   * thumbnail.
   */
  function PackGrid(th: int -> int, order: seq<int>, step: int, viewWidth: int): (m: LeafMap)
    ensures |m| == 0 <==> |order| == 0
    ensures |m| > 0 ==> m[|m| - 1].Some? && |m[|m| - 1].value.leafs| >= 1
    decreases |order|
  {
    if |order| == 0 then []
    else
      var m := PackGrid(th, order[..|order| - 1], step, viewWidth);
      var index := order[|order| - 1];
      if |m| == 0 || RowEnd(m[|m| - 1].value, step) + step > viewWidth then
        var prefix := if |m| == 0 && step > viewWidth then [None] else m;
        prefix + [Some(Row([Leaf(index, 0)], Max(0, th(index)), 0))]
      else
        var row := m[|m| - 1].value;
        m[|m| - 1 := Some(Row(row.leafs + [Leaf(index, RowEnd(row, step))], Max(row.height, th(index)), row.top))]
  }

  /** The definition packs: `PackGrid` meets `Packed` for every page order. */
  lemma {:induction false} PackGridPacked(th: int -> int, order: seq<int>, step: int, viewWidth: int)
    ensures Packed(th, order, step, viewWidth, PackGrid(th, order, step, viewWidth))
    decreases |order|
  {
    if |order| > 0 {
      var init := order[..|order| - 1];
      var index := order[|order| - 1];
      assert order == init + [index];
      var m := PackGrid(th, init, step, viewWidth);
      var m' := PackGrid(th, order, step, viewWidth);
      PackGridPacked(th, init, step, viewWidth);
      if |m| == 0 || RowEnd(m[|m| - 1].value, step) + step > viewWidth {
        var prefix := if |m| == 0 && step > viewWidth then [None] else m;
        assert m' == prefix + [Some(Row([Leaf(index, 0)], Max(0, th(index)), 0))];
        StartRow(th, init, step, viewWidth, m, index, m');
      } else {
        var row := m[|m| - 1].value;
        assert m' == m[|m| - 1 := Some(Row(row.leafs + [Leaf(index, RowEnd(row, step))], Max(row.height, th(index)), row.top))];
        ExtendRow(th, init, step, viewWidth, m, index, m');
      }
    }
  }

  /** A page that does not fit the open row (or comes first) opens a new row. */
  lemma PackGridNewRow(th: int -> int, s: seq<int>, index: int, step: int, viewWidth: int)
    requires var m := PackGrid(th, s, step, viewWidth);
             |m| == 0 || RowEnd(m[|m| - 1].value, step) + step > viewWidth
    ensures PackGrid(th, s + [index], step, viewWidth)
            == (if |s| == 0 && step > viewWidth then [None] else PackGrid(th, s, step, viewWidth))
               + [Some(Row([Leaf(index, 0)], Max(0, th(index)), 0))]
  {
    assert (s + [index])[..|s|] == s;
  }

  /** A page that fits after the open row's cells joins that row. */
  lemma PackGridSameRow(th: int -> int, s: seq<int>, index: int, step: int, viewWidth: int)
    requires var m := PackGrid(th, s, step, viewWidth);
             |m| > 0 && RowEnd(m[|m| - 1].value, step) + step <= viewWidth
    ensures var m := PackGrid(th, s, step, viewWidth);
            var row := m[|m| - 1].value;
            PackGrid(th, s + [index], step, viewWidth)
            == m[|m| - 1 := Some(Row(row.leafs + [Leaf(index, RowEnd(row, step))], Max(row.height, th(index)), row.top))]
  {
    assert (s + [index])[..|s|] == s;
  }

  lemma FirstCellBottomNewRow(th: int -> int, m: LeafMap, x: Option<Row>, thumbPadding: int)
    requires x.Some? && |x.value.leafs| >= 1
    ensures FirstCellBottom(th, m + [x], thumbPadding)
            == FirstCellBottom(th, m, thumbPadding) + thumbPadding + Max(0, th(x.value.leafs[0].num))
  {
    assert (m + [x])[..|m|] == m;
  }

  lemma FirstCellBottomHole(th: int -> int, m: LeafMap, thumbPadding: int)
    ensures FirstCellBottom(th, m + [None], thumbPadding) == FirstCellBottom(th, m, thumbPadding)
  {
    assert (m + [None])[..|m|] == m;
  }

  lemma FirstCellBottomSameFirst(th: int -> int, m: LeafMap, x: Option<Row>, thumbPadding: int)
    requires |m| > 0 && m[|m| - 1].Some? && x.Some? && |m[|m| - 1].value.leafs| >= 1
    requires |x.value.leafs| >= 1 && x.value.leafs[0] == m[|m| - 1].value.leafs[0]
    ensures FirstCellBottom(th, m[|m| - 1 := x], thumbPadding) == FirstCellBottom(th, m, thumbPadding)
  {
    assert m[|m| - 1 := x][..|m| - 1] == m[..|m| - 1];
  }

  /**
   * The state of the packing loop after it has placed the pages `placed`:
   * the rows packed so far, the cursor on the open row (its index, the
   * number of cells in it, where its next cell would start) and the
   * running bottom of the first cells.
   */
  ghost predicate PackState(th: int -> int, placed: seq<int>, step: int, viewWidth: int, thumbPadding: int,
                            leafMap: LeafMap, currentRow: int, leafIndex: int, rightPos: int, bottomPos: int)
  {
    && leafMap == PackGrid(th, placed, step, viewWidth)
    && (|placed| == 0 ==> currentRow == 0 && rightPos == 0 && leafIndex == 0)
    && (|placed| > 0 ==> currentRow == |leafMap| - 1 && leafIndex == |leafMap[currentRow].value.leafs|
                         && rightPos == RowEnd(leafMap[currentRow].value, step))
    && bottomPos == FirstCellBottom(th, leafMap, thumbPadding)
  }

  /**
   * Placing a page that opens a new row (the first page, or one past the
   * view's width) from state `m0, r0, i0, p0, b0` yields state `m1, r1, b1`.
   */
  lemma {:induction false} PlaceOpening(th: int -> int, placed: seq<int>, step: int, viewWidth: int, thumbPadding: int,
                                        m0: LeafMap, r0: int, i0: int, p0: int, b0: int,
                                        index: int, m1: LeafMap, r1: int, b1: int)
    requires PackState(th, placed, step, viewWidth, thumbPadding, m0, r0, i0, p0, b0)
    requires p0 + step > viewWidth || i0 == 0
    requires r1 == if p0 + step > viewWidth then r0 + 1 else r0
    requires m1 == (if r1 > |m0| then m0 + [None] else m0)
                   + [Some(Row([Leaf(index, if p0 + step > viewWidth then 0 else p0)], Max(0, th(index)), 0))]
    requires b1 == b0 + thumbPadding + Max(0, th(index))
    ensures PackState(th, placed + [index], step, viewWidth, thumbPadding, m1, r1, 1, step, b1)
  {
    var newRow := Some(Row([Leaf(index, 0)], Max(0, th(index)), 0));
    var holed := if r1 > |m0| then m0 + [None] else m0;
    PackGridNewRow(th, placed, index, step, viewWidth);
    assert r1 > |m0| <==> |placed| == 0 && step > viewWidth;
    if r1 > |m0| {
      FirstCellBottomHole(th, m0, thumbPadding);
    }
    FirstCellBottomNewRow(th, holed, newRow, thumbPadding);
  }

  /**
   * Placing a page that fits after the open row's cells, from state
   * `m0, r0, i0, p0, b0`, yields the map `m1`.
   */
  lemma {:induction false} PlaceFollowing(th: int -> int, placed: seq<int>, step: int, viewWidth: int, thumbPadding: int,
                                          m0: LeafMap, r0: int, i0: int, p0: int, b0: int,
                                          index: int, m1: LeafMap)
    requires PackState(th, placed, step, viewWidth, thumbPadding, m0, r0, i0, p0, b0)
    requires p0 + step <= viewWidth && i0 != 0
    requires 0 <= r0 < |m0| && m0[r0].Some?
    requires m1 == m0[r0 := Some(Row(m0[r0].value.leafs + [Leaf(index, p0)], Max(m0[r0].value.height, th(index)), m0[r0].value.top))]
    ensures PackState(th, placed + [index], step, viewWidth, thumbPadding, m1, r0, i0 + 1, p0 + step, b0)
  {
    var row := m0[r0].value;
    PackGridSameRow(th, placed, index, step, viewWidth);
    FirstCellBottomSameFirst(th, m0, Some(Row(row.leafs + [Leaf(index, p0)], Max(row.height, th(index)), row.top)), thumbPadding);
  }

  /** The open row of a state that has placed a page exists. */
  lemma OpenRow(th: int -> int, placed: seq<int>, step: int, viewWidth: int, thumbPadding: int,
                m: LeafMap, r: int, i: int, p: int, bottom: int)
    requires PackState(th, placed, step, viewWidth, thumbPadding, m, r, i, p, bottom)
    requires i != 0
    ensures 0 <= r < |m| && m[r].Some?
  {
  }

  /** The grid of a book's pages in `order`, with thumbnails `thumbWidth` wide and `thumbPadding` apart. */
  function BookGrid(b: Book, thumbWidth: int, thumbPadding: int, order: seq<int>, viewWidth: int): LeafMap {
    PackGrid(ThumbHeights(b, thumbWidth), order, thumbWidth + thumbPadding, viewWidth)
  }

  /**
   * The packing loop of `drawLeafsThumbnail`: pages in the order the book's
   * page iterator yields them (unviewable runs already combined), a fixed
   * cell step of thumbnail width plus padding.
   */
  method PackRows(b: Book, order: seq<int>, thumbWidth: int, thumbPadding: int, viewWidth: int)
    returns (leafMap: LeafMap, bottomPos: int)
    ensures leafMap == BookGrid(b, thumbWidth, thumbPadding, order, viewWidth)
    ensures bottomPos == FirstCellBottom(ThumbHeights(b, thumbWidth), leafMap, thumbPadding)
  {
    var step := thumbWidth + thumbPadding;
    ghost var th := ThumbHeights(b, thumbWidth);
    var rightPos := 0;
    var currentRow := 0;
    var leafIndex := 0;
    bottomPos := 0;
    leafMap := [];
    for q := 0 to |order|
      invariant PackState(th, order[..q], step, viewWidth, thumbPadding, leafMap, currentRow, leafIndex, rightPos, bottomPos)
    {
      var index := order[q];
      ghost var m0, r0, i0, p0, b0 := leafMap, currentRow, leafIndex, rightPos, bottomPos;
      if rightPos + step > viewWidth {
        currentRow := currentRow + 1;
        rightPos := 0;
        leafIndex := 0;
      }
      var leaf := Leaf(index, rightPos);
      var leafHeight := ThumbHeights(b, thumbWidth)(index);
      if leafIndex == 0 {
        // The row is not created yet: create it with its height grown from
        // 0; only row 0 can be skipped over, and it is left a hole.
        var height := Max(0, leafHeight);
        if currentRow > |leafMap| {
          leafMap := leafMap + [None];
        }
        leafMap := leafMap + [Some(Row([leaf], height, 0))];
        bottomPos := bottomPos + thumbPadding + height;
        PlaceOpening(th, order[..q], step, viewWidth, thumbPadding, m0, r0, i0, p0, b0,
                     index, leafMap, currentRow, bottomPos);
      } else {
        OpenRow(th, order[..q], step, viewWidth, thumbPadding, m0, r0, i0, p0, b0);
        var row := leafMap[currentRow].value;
        leafMap := leafMap[currentRow := Some(Row(row.leafs + [leaf], Max(row.height, leafHeight), row.top))];
        PlaceFollowing(th, order[..q], step, viewWidth, thumbPadding, m0, r0, i0, p0, b0, index, leafMap);
      }
      rightPos := rightPos + step;
      leafIndex := leafIndex + 1;
      TakeSnoc(order, q);
    }
    assert order[..|order|] == order;
  }

  // ---------------------------------------------------------------------
  // Which rows are in view

  /** The height of the rows stacked from the top: padding plus height per row, holes skipped. */
  function Stack(m: LeafMap, thumbPadding: int): int {
    if |m| == 0 then 0
    else
      var last := m[|m| - 1];
      Stack(m[..|m| - 1], thumbPadding) + if last.None? then 0 else thumbPadding + last.value.height
  }

  /** The three-way test: the row's top in view, its bottom in view, or the row spanning the view. */
  predicate InView(top: int, bottom: int, scrollTop: int, scrollBottom: int) {
    || (top >= scrollTop && top <= scrollBottom)
    || (bottom >= scrollTop && bottom <= scrollBottom)
    || (top <= scrollTop && bottom >= scrollBottom)
  }

  /** For a row and a view that are proper intervals, the test is exactly "the two overlap". */
  lemma InViewOverlap(top: int, bottom: int, scrollTop: int, scrollBottom: int)
    requires top <= bottom && scrollTop <= scrollBottom
    ensures InView(top, bottom, scrollTop, scrollBottom) <==> top <= scrollBottom && scrollTop <= bottom
  {
  }

  /** The rows that pass the test, in increasing order. */
  function VisibleRows(m: LeafMap, thumbPadding: int, scrollTop: int, scrollBottom: int): seq<int> {
    if |m| == 0 then []
    else
      var i := |m| - 1;
      VisibleRows(m[..i], thumbPadding, scrollTop, scrollBottom)
        + if m[i].Some? && InView(Stack(m[..i], thumbPadding), Stack(m, thumbPadding), scrollTop, scrollBottom)
          then [i] else []
  }

  /** A row moved down to where the stack puts it, never up. */
  function SetTop(x: Option<Row>, top: int): Option<Row> {
    if x.None? then None else Some(x.value.(top := Max(x.value.top, top)))
  }

  /** The rows with their tops set by the visibility loop. */
  function Placed(m: LeafMap, thumbPadding: int): (p: LeafMap)
    ensures |p| == |m|
  {
    if |m| == 0 then []
    else Placed(m[..|m| - 1], thumbPadding) + [SetTop(m[|m| - 1], Stack(m[..|m| - 1], thumbPadding))]
  }

  /** Every present row has a cell, as the packing leaves it. */
  predicate RowsNonEmpty(m: LeafMap) {
    forall i :: 0 <= i < |m| && m[i].Some? ==> |m[i].value.leafs| >= 1
  }

  /** Row numbers that name present rows of the map. */
  predicate PresentRows(m: LeafMap, rows: seq<int>) {
    forall k :: 0 <= k < |rows| ==> 0 <= rows[k] < |m| && m[rows[k]].Some?
  }

  predicate Increasing(rows: seq<int>) {
    forall j, k :: 0 <= j < k < |rows| ==> rows[j] < rows[k]
  }

  /** The least first page of the given rows, starting from `init`. */
  function LeastFirst(m: LeafMap, rows: seq<int>, init: int): (least: int)
    requires RowsNonEmpty(m)
    requires PresentRows(m, rows)
    ensures least <= init
    ensures forall k :: 0 <= k < |rows| ==> least <= m[rows[k]].value.leafs[0].num
  {
    if |rows| == 0 then init
    else
      var least := LeastFirst(m, rows[..|rows| - 1], init);
      var first := m[rows[|rows| - 1]].value.leafs[0].num;
      if first < least then first else least
  }

  function LastNum(row: Row): int
    requires |row.leafs| >= 1
  {
    row.leafs[|row.leafs| - 1].num
  }

  /** The greatest last page of the given rows, starting from `init`. */
  function GreatestLast(m: LeafMap, rows: seq<int>, init: int): (most: int)
    requires RowsNonEmpty(m)
    requires PresentRows(m, rows)
    ensures most >= init
    ensures forall k :: 0 <= k < |rows| ==> most >= LastNum(m[rows[k]].value)
  {
    if |rows| == 0 then init
    else
      var most := GreatestLast(m, rows[..|rows| - 1], init);
      var last := LastNum(m[rows[|rows| - 1]].value);
      if last > most then last else most
  }

  /** The least first page is `init` or the first page of one of the rows. */
  lemma {:induction false} LeastFirstAttained(m: LeafMap, rows: seq<int>, init: int)
    requires RowsNonEmpty(m) && PresentRows(m, rows)
    ensures var least := LeastFirst(m, rows, init);
            least == init || exists k :: 0 <= k < |rows| && least == m[rows[k]].value.leafs[0].num
  {
    if |rows| > 0 {
      LeastFirstAttained(m, rows[..|rows| - 1], init);
    }
  }

  /** The greatest last page is `init` or the last page of one of the rows. */
  lemma {:induction false} GreatestLastAttained(m: LeafMap, rows: seq<int>, init: int)
    requires RowsNonEmpty(m) && PresentRows(m, rows)
    ensures var most := GreatestLast(m, rows, init);
            most == init || exists k :: 0 <= k < |rows| && most == LastNum(m[rows[k]].value)
  {
    if |rows| > 0 {
      GreatestLastAttained(m, rows[..|rows| - 1], init);
    }
  }

  /** The visible rows are present rows of the map, in strictly increasing order. */
  lemma {:induction false} VisibleRowsValid(m: LeafMap, thumbPadding: int, scrollTop: int, scrollBottom: int)
    ensures PresentRows(m, VisibleRows(m, thumbPadding, scrollTop, scrollBottom))
    ensures Increasing(VisibleRows(m, thumbPadding, scrollTop, scrollBottom))
  {
    if |m| > 0 {
      var i := |m| - 1;
      VisibleRowsValid(m[..i], thumbPadding, scrollTop, scrollBottom);
      var init := VisibleRows(m[..i], thumbPadding, scrollTop, scrollBottom);
      var rows := VisibleRows(m, thumbPadding, scrollTop, scrollBottom);
      assert rows[..|init|] == init;
      forall k | 0 <= k < |init|
        ensures rows[k] == init[k] && init[k] < i && m[init[k]] == m[..i][init[k]]
      {
      }
    }
  }

  /**
   * A row is visible exactly when it is present and its stacked extent
   * passes the three-way test.
   */
  lemma {:induction false} VisibleRowsExactly(m: LeafMap, thumbPadding: int, scrollTop: int, scrollBottom: int, r: int)
    ensures r in VisibleRows(m, thumbPadding, scrollTop, scrollBottom)
            <==> 0 <= r < |m| && m[r].Some?
                 && InView(Stack(m[..r], thumbPadding), Stack(m[..r + 1], thumbPadding), scrollTop, scrollBottom)
  {
    if |m| > 0 {
      var i := |m| - 1;
      VisibleRowsExactly(m[..i], thumbPadding, scrollTop, scrollBottom, r);
      VisibleRowsValid(m[..i], thumbPadding, scrollTop, scrollBottom);
      assert m[..|m|] == m;
      if 0 <= r < i {
        assert m[..i][..r] == m[..r];
        assert m[..i][..r + 1] == m[..r + 1];
      }
    }
  }

  /** Every row keeps its place in the map and gets the stacked top if that is lower. */
  lemma {:induction false} PlacedRows(m: LeafMap, thumbPadding: int)
    ensures |Placed(m, thumbPadding)| == |m|
    ensures forall i :: 0 <= i < |m| ==> Placed(m, thumbPadding)[i] == SetTop(m[i], Stack(m[..i], thumbPadding))
  {
    if |m| > 0 {
      var n := |m| - 1;
      PlacedRows(m[..n], thumbPadding);
      forall i | 0 <= i < n
        ensures Placed(m, thumbPadding)[i] == SetTop(m[i], Stack(m[..i], thumbPadding))
      {
        assert m[..n][..i] == m[..i];
      }
    }
  }

  lemma UpdateAt<T>(a: seq<T>, x: T, b: seq<T>, y: T)
    ensures (a + ([x] + b))[|a| := y] == a + [y] + b
  {
  }

  /**
   * The state of the visibility loop before row `i`: rows before `i` have
   * their tops set, the visible ones among them are collected, and the least
   * and greatest visible pages are tracked.
   */
  ghost predicate LocateState(m: LeafMap, thumbPadding: int, scrollTop: int, scrollBottom: int, numLeafs: int, i: int,
                              placed: LeafMap, rows: seq<int>, leastVisible: int, mostVisible: int, leafTop: int, leafBottom: int)
    requires RowsNonEmpty(m)
  {
    && 0 <= i <= |m|
    && placed == Placed(m[..i], thumbPadding) + m[i..]
    && |placed| == |m| && (i < |m| ==> placed[i] == m[i])
    && rows == VisibleRows(m[..i], thumbPadding, scrollTop, scrollBottom)
    && PresentRows(m, rows)
    && leastVisible == LeastFirst(m, rows, numLeafs - 1)
    && mostVisible == GreatestLast(m, rows, 0)
    && leafTop == Stack(m[..i], thumbPadding)
    && leafBottom == leafTop
  }

  /** A hole is skipped: nothing of the state changes. */
  lemma {:induction false} LocateHole(m: LeafMap, thumbPadding: int, scrollTop: int, scrollBottom: int, numLeafs: int, i: int,
                                      placed: LeafMap, rows: seq<int>, leastVisible: int, mostVisible: int, leafTop: int, leafBottom: int)
    requires RowsNonEmpty(m)
    requires LocateState(m, thumbPadding, scrollTop, scrollBottom, numLeafs, i, placed, rows, leastVisible, mostVisible, leafTop, leafBottom)
    requires i < |m| && m[i].None?
    ensures LocateState(m, thumbPadding, scrollTop, scrollBottom, numLeafs, i + 1, placed, rows, leastVisible, mostVisible, leafTop, leafBottom)
  {
    assert m[..i + 1][..i] == m[..i];
    assert m[i..] == [m[i]] + m[i + 1..];
  }

  /** A present row is moved down to its stacked top. */
  lemma LocatePlaced(m: LeafMap, thumbPadding: int, i: int, placed: LeafMap, leafTop: int, placed': LeafMap)
    requires 0 <= i < |m| && m[i].Some?
    requires placed == Placed(m[..i], thumbPadding) + m[i..]
    requires leafTop == Stack(m[..i], thumbPadding)
    requires placed' == if leafTop > m[i].value.top then placed[i := Some(m[i].value.(top := leafTop))] else placed
    ensures placed' == Placed(m[..i + 1], thumbPadding) + m[i + 1..]
  {
    var prefix := m[..i + 1];
    assert prefix[..i] == m[..i];
    UpdateAt(Placed(m[..i], thumbPadding), m[i], m[i + 1..], SetTop(m[i], leafTop));
    if leafTop <= m[i].value.top {
      assert SetTop(m[i], leafTop) == m[i];
      assert placed[i := m[i]] == placed;
    }
    assert m[i..] == [m[i]] + m[i + 1..];
  }

  /**
   * A present row: its bottom is stacked on its top, and it is collected,
   * with its first and last page, when it passes the test.
   */
  lemma LocateTracked(m: LeafMap, thumbPadding: int, scrollTop: int, scrollBottom: int, numLeafs: int, i: int,
                      rows: seq<int>, leastVisible: int, mostVisible: int, leafTop: int,
                      rows': seq<int>, leastVisible': int, mostVisible': int, leafBottom': int)
    requires RowsNonEmpty(m)
    requires 0 <= i < |m| && m[i].Some?
    requires rows == VisibleRows(m[..i], thumbPadding, scrollTop, scrollBottom) && PresentRows(m, rows)
    requires leastVisible == LeastFirst(m, rows, numLeafs - 1) && mostVisible == GreatestLast(m, rows, 0)
    requires leafTop == Stack(m[..i], thumbPadding)
    requires leafBottom' == leafTop + thumbPadding + m[i].value.height
    requires var shown := InView(leafTop, leafBottom', scrollTop, scrollBottom);
             var first := m[i].value.leafs[0].num;
             var last := LastNum(m[i].value);
             && rows' == (if shown then rows + [i] else rows)
             && leastVisible' == (if shown && first < leastVisible then first else leastVisible)
             && mostVisible' == (if shown && last > mostVisible then last else mostVisible)
    ensures rows' == VisibleRows(m[..i + 1], thumbPadding, scrollTop, scrollBottom) && PresentRows(m, rows')
    ensures leastVisible' == LeastFirst(m, rows', numLeafs - 1) && mostVisible' == GreatestLast(m, rows', 0)
    ensures leafBottom' == Stack(m[..i + 1], thumbPadding)
  {
    var prefix := m[..i + 1];
    assert prefix[..i] == m[..i];
    assert Stack(prefix, thumbPadding) == leafBottom';
    if InView(leafTop, leafBottom', scrollTop, scrollBottom) {
      TrackRow(m, rows, i, numLeafs - 1, 0);
    }
  }

  /** Collecting a present row updates the least first and greatest last page by that row alone. */
  lemma TrackRow(m: LeafMap, rows: seq<int>, i: int, leastInit: int, mostInit: int)
    requires RowsNonEmpty(m) && PresentRows(m, rows)
    requires 0 <= i < |m| && m[i].Some?
    ensures PresentRows(m, rows + [i])
    ensures var least := LeastFirst(m, rows, leastInit);
            var first := m[i].value.leafs[0].num;
            LeastFirst(m, rows + [i], leastInit) == if first < least then first else least
    ensures var most := GreatestLast(m, rows, mostInit);
            var last := LastNum(m[i].value);
            GreatestLast(m, rows + [i], mostInit) == if last > most then last else most
  {
    assert (rows + [i])[..|rows|] == rows;
  }

  /**
   * One pass of the visibility loop over a present row: stack its bottom on
   * its top, collect it with its first and last page when it passes the
   * three-way test, and move it down to its stacked top.
   */
  method VisitRow(leafMap: LeafMap, thumbPadding: int, scrollTop: int, scrollBottom: int, numLeafs: int, i: int,
                  placed: LeafMap, rows: seq<int>, leastVisible: int, mostVisible: int, leafTop: int)
    returns (placed': LeafMap, rows': seq<int>, leastVisible': int, mostVisible': int, leafBottom': int)
    requires RowsNonEmpty(leafMap)
    requires LocateState(leafMap, thumbPadding, scrollTop, scrollBottom, numLeafs, i,
                         placed, rows, leastVisible, mostVisible, leafTop, leafTop)
    requires i < |leafMap| && leafMap[i].Some?
    ensures LocateState(leafMap, thumbPadding, scrollTop, scrollBottom, numLeafs, i + 1,
                        placed', rows', leastVisible', mostVisible', leafBottom', leafBottom')
  {
    var row := placed[i].value;
    leafBottom' := leafTop + thumbPadding + row.height;
    var topInView := leafTop >= scrollTop && leafTop <= scrollBottom;
    var bottomInView := leafBottom' >= scrollTop && leafBottom' <= scrollBottom;
    var middleInView := leafTop <= scrollTop && leafBottom' >= scrollBottom;
    rows', leastVisible', mostVisible' := rows, leastVisible, mostVisible;
    if topInView || bottomInView || middleInView {
      rows' := rows' + [i];
      if row.leafs[0].num < leastVisible' {
        leastVisible' := row.leafs[0].num;
      }
      if LastNum(row) > mostVisible' {
        mostVisible' := LastNum(row);
      }
    }
    LocateTracked(leafMap, thumbPadding, scrollTop, scrollBottom, numLeafs, i, rows, leastVisible, mostVisible, leafTop,
                  rows', leastVisible', mostVisible', leafBottom');
    placed' := placed;
    if leafTop > row.top {
      placed' := placed'[i := Some(row.(top := leafTop))];
    }
    LocatePlaced(leafMap, thumbPadding, i, placed, leafTop, placed');
  }

  /**
   * The visibility loop of `drawLeafsThumbnail`: stacks the rows from the
   * top, moves each row down to its stacked top, and collects the rows in
   * the view `[scrollTop, scrollBottom]` with the least and greatest page
   * among them (starting from the last page and page 0).
   */
  method LocateRows(leafMap: LeafMap, thumbPadding: int, scrollTop: int, scrollBottom: int, numLeafs: int)
    returns (placed: LeafMap, rows: seq<int>, leastVisible: int, mostVisible: int)
    requires RowsNonEmpty(leafMap)
    ensures placed == Placed(leafMap, thumbPadding)
    ensures rows == VisibleRows(leafMap, thumbPadding, scrollTop, scrollBottom)
    ensures PresentRows(leafMap, rows)
    ensures leastVisible == LeastFirst(leafMap, rows, numLeafs - 1)
    ensures mostVisible == GreatestLast(leafMap, rows, 0)
  {
    var leafTop := 0;
    var leafBottom := 0;
    rows := [];
    leastVisible := numLeafs - 1;
    mostVisible := 0;
    placed := leafMap;
    assert leafMap[..0] == [];
    for i := 0 to |leafMap|
      invariant LocateState(leafMap, thumbPadding, scrollTop, scrollBottom, numLeafs, i,
                            placed, rows, leastVisible, mostVisible, leafTop, leafBottom)
    {
      if placed[i].None? {
        LocateHole(leafMap, thumbPadding, scrollTop, scrollBottom, numLeafs, i,
                   placed, rows, leastVisible, mostVisible, leafTop, leafBottom);
        continue;
      }
      placed, rows, leastVisible, mostVisible, leafBottom :=
        VisitRow(leafMap, thumbPadding, scrollTop, scrollBottom, numLeafs, i, placed, rows, leastVisible, mostVisible, leafTop);
      leafTop := leafBottom;
    }
    assert leafMap[..|leafMap|] == leafMap;
  }

  // ---------------------------------------------------------------------
  // The row buffer

  /**
   * The rows after the last visible one, `last + 1 .. last + k`, that exist.
   * With no last row (none visible) there are none: in the source the
   * comparison with an undefined row number is false.
   */
  function RowsAfter(last: Option<int>, k: int, numRows: int): seq<int>
    decreases k
  {
    if k <= 0 then [] else RowsAfter(last, k - 1, numRows) + if last.Some? && last.value + k < numRows then [last.value + k] else []
  }

  /** The rows before the first visible one, `first - 1 .. first - k`, that exist. */
  function RowsBefore(first: Option<int>, k: int): seq<int>
    decreases k
  {
    if k <= 0 then [] else RowsBefore(first, k - 1) + if first.Some? && first.value - k >= 0 then [first.value - k] else []
  }

  function FirstOf(rows: seq<int>): Option<int> {
    if |rows| > 0 then Some(rows[0]) else None
  }

  function LastOf(rows: seq<int>): Option<int> {
    if |rows| > 0 then Some(rows[|rows| - 1]) else None
  }

  /**
   * The rows to display: the visible rows, then `thumbRowBuffer` rows after
   * them and one fewer before them, dropping those outside the map. With no
   * visible row there is no first or last row and nothing is added.
   */
  function ToDisplay(rows: seq<int>, thumbRowBuffer: int, numRows: int): seq<int> {
    rows + RowsAfter(LastOf(rows), thumbRowBuffer, numRows) + RowsBefore(FirstOf(rows), thumbRowBuffer - 1)
  }

  lemma {:induction false} RowsAfterExactly(last: int, k: int, numRows: int, x: int)
    ensures x in RowsAfter(Some(last), k, numRows) <==> last < x <= last + k && x < numRows
    decreases k
  {
    if k > 0 {
      RowsAfterExactly(last, k - 1, numRows, x);
    }
  }

  lemma {:induction false} RowsBeforeExactly(first: int, k: int, x: int)
    ensures x in RowsBefore(Some(first), k) <==> first - k <= x < first && x >= 0
    decreases k
  {
    if k > 0 {
      RowsBeforeExactly(first, k - 1, x);
    }
  }

  lemma {:induction false} NoRowsAround(k: int, numRows: int)
    ensures RowsAfter(None, k, numRows) == [] && RowsBefore(None, k) == []
    decreases k
  {
    if k > 0 {
      NoRowsAround(k - 1, numRows);
    }
  }

  /**
   * A row is displayed exactly when it is visible, or among the
   * `thumbRowBuffer` existing rows after the last visible row, or among the
   * `thumbRowBuffer - 1` existing rows before the first; with no visible
   * row, none is.
   */
  lemma ToDisplayExactly(rows: seq<int>, thumbRowBuffer: int, numRows: int, x: int)
    ensures |rows| == 0 ==> ToDisplay(rows, thumbRowBuffer, numRows) == []
    ensures |rows| > 0 ==>
            (x in ToDisplay(rows, thumbRowBuffer, numRows)
             <==> || x in rows
                  || (rows[|rows| - 1] < x <= rows[|rows| - 1] + thumbRowBuffer && x < numRows)
                  || (rows[0] - thumbRowBuffer < x < rows[0] && x >= 0))
  {
    if |rows| == 0 {
      NoRowsAround(thumbRowBuffer, numRows);
      NoRowsAround(thumbRowBuffer - 1, numRows);
    } else {
      RowsAfterExactly(rows[|rows| - 1], thumbRowBuffer, numRows, x);
      RowsBeforeExactly(rows[0], thumbRowBuffer - 1, x);
    }
  }

  /** Displayed rows are rows of the map when the visible ones are. */
  lemma ToDisplayInMap(rows: seq<int>, thumbRowBuffer: int, numRows: int)
    requires forall k :: 0 <= k < |rows| ==> 0 <= rows[k] < numRows
    ensures forall x :: x in ToDisplay(rows, thumbRowBuffer, numRows) ==> 0 <= x < numRows
  {
    forall x | x in ToDisplay(rows, thumbRowBuffer, numRows)
      ensures 0 <= x < numRows
    {
      ToDisplayExactly(rows, thumbRowBuffer, numRows, x);
    }
  }

  /**
   * The buffer loops of `drawLeafsThumbnail` (before the sort, which only
   * reorders): rows after the last visible row, then rows before the first.
   */
  method BufferRows(rows: seq<int>, thumbRowBuffer: int, numRows: int) returns (rowsToDisplay: seq<int>)
    ensures rowsToDisplay == ToDisplay(rows, thumbRowBuffer, numRows)
  {
    var firstRow := FirstOf(rows);
    var lastRow := LastOf(rows);
    rowsToDisplay := rows;
    var i := 1;
    while i < thumbRowBuffer + 1
      invariant 1 <= i <= Max(1, thumbRowBuffer + 1)
      invariant rowsToDisplay == rows + RowsAfter(lastRow, i - 1, numRows)
    {
      if lastRow.Some? && lastRow.value + i < numRows {
        rowsToDisplay := rowsToDisplay + [lastRow.value + i];
      }
      i := i + 1;
    }
    ghost var after := rowsToDisplay;
    assert after == rows + RowsAfter(lastRow, thumbRowBuffer, numRows);
    i := 1;
    while i < thumbRowBuffer
      invariant 1 <= i <= Max(1, thumbRowBuffer)
      invariant rowsToDisplay == after + RowsBefore(firstRow, i - 1)
    {
      if firstRow.Some? && firstRow.value - i >= 0 {
        rowsToDisplay := rowsToDisplay + [firstRow.value - i];
      }
      i := i + 1;
    }
  }

  // ---------------------------------------------------------------------
  // Building and tearing down rows

  /** A row that exists in the map (not past its end, not a hole). */
  predicate Present(m: LeafMap, r: int) {
    0 <= r < |m| && m[r].Some?
  }

  /** The set of the members of a sequence (rows or pages, in the order a draw lists them). */
  function Elements(s: seq<int>): set<int> {
    set x | x in s
  }

  /** The pages shown by the present rows among `rows`. */
  function PagesOf(m: LeafMap, rows: set<int>): set<int> {
    set r, k | r in rows && Present(m, r) && 0 <= k < |m[r].value.leafs| :: m[r].value.leafs[k].num
  }

  /**
   * The pages built by a draw, in order: those of each row to display that
   * was not displayed before, skipping rows that do not exist.
   */
  function FreshPages(m: LeafMap, rowsToDisplay: seq<int>, displayedRows: set<int>): seq<int> {
    if |rowsToDisplay| == 0 then []
    else
      var r := rowsToDisplay[|rowsToDisplay| - 1];
      FreshPages(m, rowsToDisplay[..|rowsToDisplay| - 1], displayedRows)
        + if r !in displayedRows && Present(m, r) then Nums(m[r].value.leafs) else []
  }

  /** The pages built are exactly the pages of the newly displayed rows. */
  lemma {:induction false} FreshPagesExactly(m: LeafMap, rowsToDisplay: seq<int>, displayedRows: set<int>, p: int)
    ensures p in FreshPages(m, rowsToDisplay, displayedRows)
            <==> p in PagesOf(m, Elements(rowsToDisplay) - displayedRows)
  {
    var rows := Elements(rowsToDisplay) - displayedRows;
    if |rowsToDisplay| > 0 {
      var n := |rowsToDisplay| - 1;
      var r := rowsToDisplay[n];
      var init := rowsToDisplay[..n];
      var initRows := Elements(init) - displayedRows;
      FreshPagesExactly(m, init, displayedRows, p);
      assert rowsToDisplay == init + [r];
      assert rows == initRows + (if r !in displayedRows then {r} else {});
      if p in PagesOf(m, rows) && p !in PagesOf(m, initRows) {
        var r', k :| r' in rows && Present(m, r') && 0 <= k < |m[r'].value.leafs| && p == m[r'].value.leafs[k].num;
        assert r' == r;
        assert Nums(m[r].value.leafs)[k] == p;
      }
      if r !in displayedRows && Present(m, r) && p in Nums(m[r].value.leafs) {
        var k :| 0 <= k < |m[r].value.leafs| && Nums(m[r].value.leafs)[k] == p;
        assert p == m[r].value.leafs[k].num;
      }
    }
  }

  /** The set of pages built is the set of pages of the newly displayed rows. */
  lemma FreshPagesSet(m: LeafMap, rowsToDisplay: seq<int>, displayedRows: set<int>)
    ensures Elements(FreshPages(m, rowsToDisplay, displayedRows))
            == PagesOf(m, Elements(rowsToDisplay) - displayedRows)
  {
    forall p
      ensures p in FreshPages(m, rowsToDisplay, displayedRows)
              <==> p in PagesOf(m, Elements(rowsToDisplay) - displayedRows)
    {
      FreshPagesExactly(m, rowsToDisplay, displayedRows, p);
    }
  }

  /** The cells built by a draw, in order: `FreshPages` with each page's offset in its row. */
  function FreshLeafs(m: LeafMap, rowsToDisplay: seq<int>, displayedRows: set<int>): seq<Leaf> {
    if |rowsToDisplay| == 0 then []
    else
      var r := rowsToDisplay[|rowsToDisplay| - 1];
      FreshLeafs(m, rowsToDisplay[..|rowsToDisplay| - 1], displayedRows)
        + if r !in displayedRows && Present(m, r) then m[r].value.leafs else []
  }

  lemma NumsAppend(a: seq<Leaf>, b: seq<Leaf>)
    ensures Nums(a + b) == Nums(a) + Nums(b)
  {
    assert Nums(a + b) == Nums(a) + Nums(b);
  }

  /** The built cells carry exactly the built pages. */
  lemma {:induction false} FreshLeafsNums(m: LeafMap, rowsToDisplay: seq<int>, displayedRows: set<int>)
    ensures Nums(FreshLeafs(m, rowsToDisplay, displayedRows)) == FreshPages(m, rowsToDisplay, displayedRows)
  {
    if |rowsToDisplay| > 0 {
      var n := |rowsToDisplay| - 1;
      var r := rowsToDisplay[n];
      FreshLeafsNums(m, rowsToDisplay[..n], displayedRows);
      NumsAppend(FreshLeafs(m, rowsToDisplay[..n], displayedRows),
                 if r !in displayedRows && Present(m, r) then m[r].value.leafs else []);
    }
  }

  /**
   * The building loop of `drawLeafsThumbnail`: for each row to display that
   * was not displayed before and exists, a cell for each of its pages; the
   * pages go to `imagesToDisplay`, and each container is placed at the
   * `CellLeft` of its offset in the row.
   */
  method MaterializeRows(leafMap: LeafMap, rowsToDisplay: seq<int>, displayedRows: set<int>,
                         pageViewBuffer: int, rightToLeft: bool, viewWidth: int, thumbWidth: int, thumbPadding: int)
    returns (imagesToDisplay: seq<int>, lefts: seq<int>)
    ensures imagesToDisplay == FreshPages(leafMap, rowsToDisplay, displayedRows)
    ensures |lefts| == |imagesToDisplay| == |FreshLeafs(leafMap, rowsToDisplay, displayedRows)|
    ensures forall k :: 0 <= k < |lefts| ==>
              var cell := FreshLeafs(leafMap, rowsToDisplay, displayedRows)[k];
              cell.num == imagesToDisplay[k]
              && lefts[k] == CellLeft(cell.left, pageViewBuffer, rightToLeft, viewWidth, thumbWidth, thumbPadding)
  {
    imagesToDisplay, lefts := [], [];
    ghost var cells: seq<Leaf> := [];
    for q := 0 to |rowsToDisplay|
      invariant imagesToDisplay == FreshPages(leafMap, rowsToDisplay[..q], displayedRows)
      invariant cells == FreshLeafs(leafMap, rowsToDisplay[..q], displayedRows)
      invariant |lefts| == |cells|
      invariant forall k :: 0 <= k < |lefts| ==>
                  lefts[k] == CellLeft(cells[k].left, pageViewBuffer, rightToLeft, viewWidth, thumbWidth, thumbPadding)
    {
      var row := rowsToDisplay[q];
      assert rowsToDisplay[..q + 1][..q] == rowsToDisplay[..q];
      if row !in displayedRows {
        if !(0 <= row < |leafMap| && leafMap[row].Some?) {
          continue;
        }
        var leafs := leafMap[row].value.leafs;
        ghost var before, beforeCells := imagesToDisplay, cells;
        for j := 0 to |leafs|
          invariant imagesToDisplay == before + Nums(leafs[..j])
          invariant cells == beforeCells + leafs[..j]
          invariant |lefts| == |cells|
          invariant forall k :: 0 <= k < |lefts| ==>
                      lefts[k] == CellLeft(cells[k].left, pageViewBuffer, rightToLeft, viewWidth, thumbWidth, thumbPadding)
        {
          NumsSnoc(leafs[..j], leafs[j]);
          assert leafs[..j + 1] == leafs[..j] + [leafs[j]];
          imagesToDisplay := imagesToDisplay + [leafs[j].num];
          cells := cells + [leafs[j]];
          lefts := lefts + [CellLeft(leafs[j].left, pageViewBuffer, rightToLeft, viewWidth, thumbWidth, thumbPadding)];
        }
        assert leafs[..|leafs|] == leafs;
      }
    }
    assert rowsToDisplay[..|rowsToDisplay|] == rowsToDisplay;
    FreshLeafsNums(leafMap, rowsToDisplay, displayedRows);
  }

  /**
   * The tear-down loop as written: the displayed rows are visited in order,
   * and every page of a row that leaves the display is removed unless it was
   * just built. A leaving row that does not exist in the map makes
   * `for ... of leafMap[row]?.leafs` iterate over `undefined`, which throws
   * at that row. The pages removed before the throw stay removed, which the
   * result does not record.
   */
  method TearDownAsWritten(m: LeafMap, displayedRows: seq<int>, rowsToDisplay: set<int>, imagesToDisplay: set<int>)
    returns (r: Result<set<int>>)
    ensures r.Throws? <==>
              exists i :: 0 <= i < |displayedRows| && displayedRows[i] !in rowsToDisplay && !Present(m, displayedRows[i])
    ensures r.Ok? ==> r.value == TearDown(m, Elements(displayedRows), rowsToDisplay, imagesToDisplay)
  {
    var removed := {};
    for i := 0 to |displayedRows|
      invariant removed == TearDown(m, Elements(displayedRows[..i]), rowsToDisplay, imagesToDisplay)
      invariant forall j :: 0 <= j < i ==> displayedRows[j] in rowsToDisplay || Present(m, displayedRows[j])
    {
      var row := displayedRows[i];
      assert Elements(displayedRows[..i + 1]) == Elements(displayedRows[..i]) + {row} by {
        assert displayedRows[..i + 1] == displayedRows[..i] + [row];
      }
      TearDownAdd(m, Elements(displayedRows[..i]), row, rowsToDisplay, imagesToDisplay);
      if row !in rowsToDisplay {
        if !Present(m, row) {
          return Throws("TypeError: undefined is not iterable");
        }
        var gone := RemoveRow(m[row].value.leafs, imagesToDisplay);
        removed := removed + gone;
      }
    }
    assert displayedRows[..|displayedRows|] == displayedRows;
    return Ok(removed);
  }

  /** The inner loop of the tear-down: the pages of a leaving row that were not just built. */
  method RemoveRow(leafs: seq<Leaf>, imagesToDisplay: set<int>) returns (gone: set<int>)
    ensures gone == RowLeaving(leafs, imagesToDisplay)
  {
    gone := {};
    for k := 0 to |leafs|
      invariant gone == RowLeaving(leafs[..k], imagesToDisplay)
    {
      RowLeavingSnoc(leafs[..k], leafs[k], imagesToDisplay);
      assert leafs[..k + 1] == leafs[..k] + [leafs[k]];
      if leafs[k].num !in imagesToDisplay {
        gone := gone + {leafs[k].num};
      }
    }
    assert leafs[..|leafs|] == leafs;
  }

  /** The pages of a row that are not among the just-built ones. */
  function RowLeaving(leafs: seq<Leaf>, imagesToDisplay: set<int>): set<int> {
    set k | 0 <= k < |leafs| && leafs[k].num !in imagesToDisplay :: leafs[k].num
  }

  lemma RowLeavingSnoc(leafs: seq<Leaf>, l: Leaf, imagesToDisplay: set<int>)
    ensures RowLeaving(leafs + [l], imagesToDisplay)
            == RowLeaving(leafs, imagesToDisplay) + (if l.num !in imagesToDisplay then {l.num} else {})
  {
    var s := leafs + [l];
    forall x | x in RowLeaving(leafs, imagesToDisplay)
      ensures x in RowLeaving(s, imagesToDisplay)
    {
      var k :| 0 <= k < |leafs| && leafs[k].num !in imagesToDisplay && leafs[k].num == x;
      assert s[k] == leafs[k];
    }
    if l.num !in imagesToDisplay {
      assert s[|leafs|] == l;
    }
  }

  /** Visiting one more displayed row adds that row's removed pages, if it leaves and exists. */
  lemma TearDownAdd(m: LeafMap, displayedRows: set<int>, row: int, rowsToDisplay: set<int>, imagesToDisplay: set<int>)
    ensures TearDown(m, displayedRows + {row}, rowsToDisplay, imagesToDisplay)
            == TearDown(m, displayedRows, rowsToDisplay, imagesToDisplay)
               + (if row !in rowsToDisplay && Present(m, row) then RowLeaving(m[row].value.leafs, imagesToDisplay) else {})
  {
    var lhs := TearDown(m, displayedRows + {row}, rowsToDisplay, imagesToDisplay);
    var rhs := TearDown(m, displayedRows, rowsToDisplay, imagesToDisplay)
               + (if row !in rowsToDisplay && Present(m, row) then RowLeaving(m[row].value.leafs, imagesToDisplay) else {});
    forall x | x in lhs
      ensures x in rhs
    {
      var r, k :| r in displayedRows + {row} && r !in rowsToDisplay && Present(m, r) && 0 <= k < |m[r].value.leafs|
                  && m[r].value.leafs[k].num !in imagesToDisplay && m[r].value.leafs[k].num == x;
      if r != row {
        assert x in TearDown(m, displayedRows, rowsToDisplay, imagesToDisplay);
      }
    }
    assert rhs <= lhs;
  }

  /**
   * The tear-down with leaving rows that do not exist skipped, as the
   * building loop already skips them: the pages of the leaving rows that
   * were not just built.
   */
  function TearDown(m: LeafMap, displayedRows: set<int>, rowsToDisplay: set<int>, imagesToDisplay: set<int>): set<int> {
    set r, k | r in displayedRows && r !in rowsToDisplay && Present(m, r) && 0 <= k < |m[r].value.leafs|
                 && m[r].value.leafs[k].num !in imagesToDisplay
             :: m[r].value.leafs[k].num
  }

  /**
   * The tear-down as written can throw. Cells 120 wide in a view 100 wide
   * leave row 0 a hole and put one page in each of rows 1, 2 and 3, each 20
   * high with the padding. With a buffer of 2, a view of [0, 15] shows row 1
   * and displays rows 1, 2, 3 and the hole 0; scrolling to [45, 60] shows
   * row 3 and displays rows 3 and 2, so the hole leaves the display: the
   * condition under which `TearDownAsWritten` throws.
   */
  lemma TearDownHoleThrows()
    ensures var m := PackGrid(_ => 10, [0, 1, 2], 120, 100);
            var before := ToDisplay(VisibleRows(m, 10, 0, 15), 2, |m|);
            var after := ToDisplay(VisibleRows(m, 10, 45, 60), 2, |m|);
            exists i :: 0 <= i < |before| && before[i] !in Elements(after) && !Present(m, before[i])
  {
    var m := HoleExamplePacked();
    HoleExampleVisible(m);
    HoleExampleDisplay();
    var before := ToDisplay(VisibleRows(m, 10, 0, 15), 2, |m|);
    var after := ToDisplay(VisibleRows(m, 10, 45, 60), 2, |m|);
    assert before == [1, 2, 3, 0] && before[3] == 0;
    assert after == [3, 2];
    assert before[3] !in Elements(after) && !Present(m, before[3]);
  }

  lemma HoleExampleDisplay()
    ensures ToDisplay([1], 2, 4) == [1, 2, 3, 0]
    ensures ToDisplay([3], 2, 4) == [3, 2]
  {
    assert RowsAfter(Some(1), 2, 4) == [2, 3];
    assert RowsBefore(Some(1), 1) == [0];
    assert RowsAfter(Some(3), 2, 4) == [];
    assert RowsBefore(Some(3), 1) == [2];
  }

  function OnePage(i: int): Option<Row> {
    Some(Row([Leaf(i, 0)], 10, 0))
  }

  lemma HoleExamplePacked() returns (m: LeafMap)
    ensures m == PackGrid(_ => 10, [0, 1, 2], 120, 100)
    ensures m == [None, OnePage(0), OnePage(1), OnePage(2)]
  {
    var th: int -> int := _ => 10;
    assert [0, 1, 2][..2] == [0, 1] && [0, 1][..1] == [0] && [0][..0] == [];
    assert PackGrid(th, [0], 120, 100) == [None, OnePage(0)];
    assert PackGrid(th, [0, 1], 120, 100) == [None, OnePage(0), OnePage(1)];
    m := PackGrid(th, [0, 1, 2], 120, 100);
  }

  lemma HoleExampleVisible(m: LeafMap)
    requires m == [None, OnePage(0), OnePage(1), OnePage(2)]
    ensures VisibleRows(m, 10, 0, 15) == [1] && VisibleRows(m, 10, 45, 60) == [3]
  {
    var m3, m2, m1: LeafMap := m[..3], m[..2], m[..1];
    assert m1 == [None] && m1[..0] == [];
    assert m2 == [None, OnePage(0)] && m2[..1] == m1;
    assert m3 == [None, OnePage(0), OnePage(1)] && m3[..2] == m2;
    assert Stack(m1, 10) == 0;
    assert Stack(m2, 10) == 20;
    assert Stack(m3, 10) == 40;
    assert Stack(m, 10) == 60;
    assert VisibleRows(m1, 10, 0, 15) == [];
    assert VisibleRows(m1, 10, 45, 60) == [];
    assert VisibleRows(m2, 10, 0, 15) == [1];
    assert VisibleRows(m2, 10, 45, 60) == [];
    assert VisibleRows(m3, 10, 0, 15) == [1];
    assert VisibleRows(m3, 10, 45, 60) == [];
  }

  /** No page is shown by two rows. */
  ghost predicate UniquePages(m: LeafMap) {
    forall r1, k1, r2, k2 ::
      (&& Present(m, r1) && Present(m, r2) && 0 <= k1 < |m[r1].value.leafs| && 0 <= k2 < |m[r2].value.leafs|
       && m[r1].value.leafs[k1].num == m[r2].value.leafs[k2].num)
      ==> r1 == r2
  }

  /**
   * The diff keeps the page view in step with the displayed rows: if the
   * view showed the pages of the old displayed rows, then after building the
   * new rows and tearing down the leaving ones it shows exactly the pages of
   * the new displayed rows.
   */
  lemma ShownAfterDraw(m: LeafMap, displayedRows: set<int>, rowsToDisplay: set<int>)
    requires UniquePages(m)
    ensures var images := PagesOf(m, rowsToDisplay - displayedRows);
            (PagesOf(m, displayedRows) + images) - TearDown(m, displayedRows, rowsToDisplay, images)
            == PagesOf(m, rowsToDisplay)
  {
    var images := PagesOf(m, rowsToDisplay - displayedRows);
    var after := (PagesOf(m, displayedRows) + images) - TearDown(m, displayedRows, rowsToDisplay, images);
    forall p | p in PagesOf(m, rowsToDisplay)
      ensures p in after
    {
      var r, k :| r in rowsToDisplay && Present(m, r) && 0 <= k < |m[r].value.leafs| && p == m[r].value.leafs[k].num;
      if r in displayedRows {
        assert p in PagesOf(m, displayedRows);
      } else {
        assert p in images;
      }
    }
    forall p | p in after
      ensures p in PagesOf(m, rowsToDisplay)
    {
      if p !in images {
        var r, k :| r in displayedRows && Present(m, r) && 0 <= k < |m[r].value.leafs| && p == m[r].value.leafs[k].num;
        assert r in rowsToDisplay || p in TearDown(m, displayedRows, rowsToDisplay, images);
      }
    }
  }

  /** The pages of a row sit, in order, at one place in the flattened grid. */
  lemma {:induction false} FlattenSlice(m: LeafMap, r: int)
    requires Present(m, r)
    ensures var a := |Flatten(m[..r])|;
            a + |m[r].value.leafs| <= |Flatten(m)| && Flatten(m)[a..a + |m[r].value.leafs|] == Nums(m[r].value.leafs)
  {
    var n := |m| - 1;
    var init := m[..n];
    assert Flatten(m) == Flatten(init) + RowNums(m[n]);
    if r < n {
      FlattenSlice(init, r);
      assert init[..r] == m[..r];
      assert init[r] == m[r];
    } else {
      assert m[..r] == init;
    }
  }

  lemma PageInFlatten(m: LeafMap, r: int, k: int)
    requires Present(m, r) && 0 <= k < |m[r].value.leafs|
    ensures m[r].value.leafs[k].num in Flatten(m)
  {
    FlattenSlice(m, r);
    var a := |Flatten(m[..r])|;
    assert Flatten(m)[a + k] == Nums(m[r].value.leafs)[k];
  }

  predicate Distinct(s: seq<int>) {
    forall i, j :: 0 <= i < j < |s| ==> s[i] != s[j]
  }

  predicate StrictlyIncreasing(s: seq<int>) {
    forall i, j :: 0 <= i < j < |s| ==> s[i] < s[j]
  }

  lemma DistinctHalves(a: seq<int>, b: seq<int>)
    requires Distinct(a + b)
    ensures forall i, j :: 0 <= i < |a| && 0 <= j < |b| ==> a[i] != b[j]
  {
    forall i, j | 0 <= i < |a| && 0 <= j < |b|
      ensures a[i] != b[j]
    {
      assert (a + b)[i] == a[i] && (a + b)[|a| + j] == b[j];
    }
  }

  /** When the flattened grid repeats no page, no page is in two rows. */
  lemma {:induction false} FlattenUnique(m: LeafMap)
    requires Distinct(Flatten(m))
    ensures UniquePages(m)
  {
    if |m| > 0 {
      var n := |m| - 1;
      var init := m[..n];
      var a := Flatten(init);
      var b := RowNums(m[n]);
      assert Flatten(m) == a + b;
      assert Distinct(a) by {
        forall i, j | 0 <= i < j < |a|
          ensures a[i] != a[j]
        {
          assert a[i] == Flatten(m)[i] && a[j] == Flatten(m)[j];
        }
      }
      FlattenUnique(init);
      forall r1, k1, r2, k2 |
        && Present(m, r1) && Present(m, r2) && 0 <= k1 < |m[r1].value.leafs| && 0 <= k2 < |m[r2].value.leafs|
        && m[r1].value.leafs[k1].num == m[r2].value.leafs[k2].num
        ensures r1 == r2
      {
        if r1 < n && r2 < n {
          assert init[r1] == m[r1] && init[r2] == m[r2];
        } else if r1 < n {
          LastRowApart(m, r1, k1, k2);
        } else if r2 < n {
          LastRowApart(m, r2, k2, k1);
        }
      }
    }
  }

  /** A page of an earlier row is not one of the last row's when the flattened grid repeats no page. */
  lemma LastRowApart(m: LeafMap, r: int, k: int, k': int)
    requires Distinct(Flatten(m))
    requires Present(m, r) && r < |m| - 1 && 0 <= k < |m[r].value.leafs|
    requires Present(m, |m| - 1) && 0 <= k' < |m[|m| - 1].value.leafs|
    ensures m[r].value.leafs[k].num != m[|m| - 1].value.leafs[k'].num
  {
    var n := |m| - 1;
    var init := m[..n];
    var a := Flatten(init);
    var b := RowNums(m[n]);
    assert Flatten(m) == a + b;
    assert init[r] == m[r];
    PageInFlatten(init, r, k);
    DistinctHalves(a, b);
    assert b[k'] == m[n].value.leafs[k'].num;
  }

  /** Every row the packing makes has a cell. */
  lemma PackGridRowsNonEmpty(th: int -> int, order: seq<int>, step: int, viewWidth: int)
    ensures RowsNonEmpty(PackGrid(th, order, step, viewWidth))
  {
    PackGridPacked(th, order, step, viewWidth);
    GridRowsPacked(th, step, viewWidth, PackGrid(th, order, step, viewWidth));
  }

  /** Each present row's first page is at most its last. */
  ghost predicate RowsOrdered(m: LeafMap) {
    forall r :: Present(m, r) ==> |m[r].value.leafs| >= 1 && m[r].value.leafs[0].num <= LastNum(m[r].value)
  }

  /** Packing pages that come without repeats puts no page in two rows. */
  lemma PackGridUnique(th: int -> int, order: seq<int>, step: int, viewWidth: int)
    requires Distinct(order)
    ensures UniquePages(PackGrid(th, order, step, viewWidth))
  {
    PackGridPacked(th, order, step, viewWidth);
    FlattenUnique(PackGrid(th, order, step, viewWidth));
  }

  /** Packing pages that come in increasing order keeps each row's pages in order. */
  lemma PackGridOrdered(th: int -> int, order: seq<int>, step: int, viewWidth: int)
    requires StrictlyIncreasing(order)
    ensures RowsOrdered(PackGrid(th, order, step, viewWidth))
  {
    var m := PackGrid(th, order, step, viewWidth);
    PackGridPacked(th, order, step, viewWidth);
    GridRowsPacked(th, step, viewWidth, m);
    forall r | Present(m, r)
      ensures |m[r].value.leafs| >= 1 && m[r].value.leafs[0].num <= LastNum(m[r].value)
    {
      RowOrdered(m, order, r);
    }
  }

  lemma RowOrdered(m: LeafMap, order: seq<int>, r: int)
    requires Flatten(m) == order && StrictlyIncreasing(order)
    requires Present(m, r) && |m[r].value.leafs| >= 1
    ensures m[r].value.leafs[0].num <= LastNum(m[r].value)
  {
    var a := RowEnds(m, r);
  }

  lemma SliceEnds(s: seq<int>, a: int, leafs: seq<Leaf>)
    requires 0 <= a && a + |leafs| <= |s| && s[a..a + |leafs|] == Nums(leafs) && |leafs| >= 1
    ensures s[a] == leafs[0].num && s[a + |leafs| - 1] == leafs[|leafs| - 1].num
  {
    assert s[a..a + |leafs|][0] == s[a];
    assert s[a..a + |leafs|][|leafs| - 1] == s[a + |leafs| - 1];
  }

  /** Where a present row's first and last pages sit in the flattened grid. */
  lemma RowEnds(m: LeafMap, r: int) returns (a: int)
    requires Present(m, r) && |m[r].value.leafs| >= 1
    ensures 0 <= a && a + |m[r].value.leafs| <= |Flatten(m)|
    ensures Flatten(m)[a] == m[r].value.leafs[0].num
    ensures Flatten(m)[a + |m[r].value.leafs| - 1] == LastNum(m[r].value)
  {
    var leafs := m[r].value.leafs;
    FlattenSlice(m, r);
    a := |Flatten(m[..r])|;
    SliceEnds(Flatten(m), a, leafs);
  }

  /**
   * The page that becomes current after a draw, if any: the least visible
   * page when the current one is before it, else the greatest visible page
   * when the current one is after it; otherwise the current page stays.
   */
  function Retarget(current: int, leastVisible: int, mostVisible: int): (r: Option<int>)
    ensures r.None? <==> leastVisible <= current <= mostVisible
    ensures r.Some? && leastVisible <= mostVisible ==> leastVisible <= r.value <= mostVisible
    ensures current < leastVisible ==> r == Some(leastVisible)
    ensures leastVisible <= current && mostVisible < current ==> r == Some(mostVisible)
  {
    if current < leastVisible then Some(leastVisible)
    else if current > mostVisible then Some(mostVisible)
    else None
  }

  /**
   * When some row is visible and each row's first page is at most its last,
   * the visible pages form a non-empty range, so a draw always leaves the
   * current page inside it.
   */
  lemma VisibleSpan(m: LeafMap, rows: seq<int>, numLeafs: int, current: int)
    requires RowsNonEmpty(m) && PresentRows(m, rows) && |rows| > 0
    requires RowsOrdered(m)
    ensures var least := LeastFirst(m, rows, numLeafs - 1);
            var most := GreatestLast(m, rows, 0);
            var after := match Retarget(current, least, most) case Some(i) => i case None => current;
            least <= most && least <= after <= most
  {
    var r := rows[0];
    assert Present(m, r);
  }

  /** `getThumbnailWidth`: the whole part of the width that fits the columns, or 100 when that is not positive. */
  function ThumbnailWidth(pageViewWidth: real, thumbnailColumns: int, thumbPadding: real): (w: int)
    ensures w > 0
    ensures var width := (pageViewWidth - (thumbnailColumns + 1) as real * thumbPadding) / (thumbnailColumns as real + 0.5);
            && (Trunc(width) > 0 ==> w == Trunc(width) && w as real <= width < w as real + 1.0)
            && (Trunc(width) <= 0 ==> w == 100 && width < 1.0)
  {
    var padding := (thumbnailColumns + 1) as real * thumbPadding;
    var width := (pageViewWidth - padding) / (thumbnailColumns as real + 0.5);
    var idealThumbnailWidth := Trunc(width);
    if idealThumbnailWidth > 0 then idealThumbnailWidth else 100
  }

  /**
   * The horizontal position of a cell: its offset in the row shifted by the
   * page-view margin, mirrored across the view for right-to-left books, then
   * shifted by the padding.
   */
  function CellLeft(leafLeft: int, pageViewBuffer: int, rightToLeft: bool, viewWidth: int, thumbWidth: int, thumbPadding: int)
    : (left: int)
    ensures rightToLeft ==> left == viewWidth - thumbWidth + 2 * thumbPadding
                                    - CellLeft(leafLeft, pageViewBuffer, false, viewWidth, thumbWidth, thumbPadding)
  {
    var left := leafLeft + pageViewBuffer;
    (if rightToLeft then viewWidth - thumbWidth - left else left) + thumbPadding
  }
}
