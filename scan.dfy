/**
 * `TikzImage.__init__`: the scan that deduplicates the image's colours into
 * the colour map and records one `TikzPixel` per cell.
 *
 * The specification is a fold, `ScanCells`, of one loop iteration, `Visit`,
 * over the cells in the order they are visited; `Scan` folds it over the
 * row-major order. The class `TikzImage` runs the source's nested loops and
 * is proved to end in the state `Scan` describes.
 */
module Scan {
  import opened Wrappers
  import opened Colors
  import opened ColorMap
  import opened Pixels

  /** One stored pixel in OpenCV's channel order: (blue, green, red). */
  type Bgr = (Channel, Channel, Channel)

  /** A decoded image of shape `(rows, cols, 3)`. */
  datatype Image = Image(rows: nat, cols: nat, pixels: seq<seq<Bgr>>) {
    predicate Valid() {
      |pixels| == rows && forall i :: 0 <= i < rows ==> |pixels[i]| == cols
    }
  }

  /** A position `(row, column)` in the image. */
  type Cell = (nat, nat)

  /** The cells of row `i`, left to right. */
  function RowOrder(i: nat, cols: nat): (r: seq<Cell>)
    ensures |r| == cols
    ensures forall j :: 0 <= j < cols ==> r[j] == (i, j)
  {
    seq(cols, j requires 0 <= j < cols => (i, j))
  }

  /** Rows top to bottom, each row left to right. */
  function ScanOrder(rows: nat, cols: nat): (r: seq<Cell>)
    ensures |r| == rows * cols
    ensures forall k :: 0 <= k < |r| ==> r[k].0 < rows && r[k].1 < cols
  {
    if rows == 0 then [] else ScanOrder(rows - 1, cols) + RowOrder(rows - 1, cols)
  }

  /** Cell `a` comes before cell `b` in row-major order. */
  predicate Before(a: Cell, b: Cell) {
    a.0 < b.0 || (a.0 == b.0 && a.1 < b.1)
  }

  /** Each cell of `cells` comes strictly after the ones listed before it. */
  predicate Increasing(cells: seq<Cell>) {
    forall k1, k2 :: 0 <= k1 < k2 < |cells| ==> Before(cells[k1], cells[k2])
  }

  /** The scan order is strictly increasing in row-major order; in particular no cell is visited twice. */
  lemma {:induction false} ScanOrderRowMajor(rows: nat, cols: nat)
    ensures Increasing(ScanOrder(rows, cols))
  {
    if rows > 0 {
      ScanOrderRowMajor(rows - 1, cols);
      var r := ScanOrder(rows, cols);
      var front := ScanOrder(rows - 1, cols);
      forall k1, k2 | 0 <= k1 < k2 < |r|
        ensures Before(r[k1], r[k2])
      {
        var last := RowOrder(rows - 1, cols);
        if k2 < |front| {
          assert r[k1] == front[k1] && r[k2] == front[k2];
        } else if k1 < |front| {
          assert r[k1] == front[k1] && r[k2] == last[k2 - |front|];
        } else {
          assert r[k1] == last[k1 - |front|] && r[k2] == last[k2 - |front|];
        }
      }
    }
  }

  /** Every cell of the image is visited. */
  lemma {:induction false} ScanOrderComplete(rows: nat, cols: nat, i: nat, j: nat)
    requires i < rows && j < cols
    ensures (i, j) in ScanOrder(rows, cols)
  {
    var front := ScanOrder(rows - 1, cols);
    if i < rows - 1 {
      ScanOrderComplete(rows - 1, cols, i, j);
    } else {
      assert RowOrder(rows - 1, cols)[j] == (i, j);
    }
  }

  predicate InBounds(img: Image, cells: seq<Cell>) {
    forall k :: 0 <= k < |cells| ==> cells[k].0 < img.rows && cells[k].1 < img.cols
  }

  /** The colour of a cell with its channels put back in red, green, blue order. */
  function RgbAt(img: Image, cell: Cell, name: string): TikzRgb
    requires img.Valid() && cell.0 < img.rows && cell.1 < img.cols
  {
    var px := img.pixels[cell.0][cell.1];
    TikzRgb(red := px.2, green := px.1, blue := px.0, imageName := name)
  }

  /** The state the scan builds: `color_map` and `pixel_map`. */
  datatype Scanned = Scanned(colorMap: seq<TikzRgb>, pixelMap: seq<TikzPixel>)

  /** One iteration of the inner loop, at `cell`. */
  function Visit(img: Image, name: string, s: Scanned, cell: Cell): Scanned
    requires img.Valid() && cell.0 < img.rows && cell.1 < img.cols
  {
    var rgb := RgbAt(img, cell, name);
    var colorMap := if !Contains(s.colorMap, rgb) then s.colorMap + [rgb] else s.colorMap;
    assert Contains(colorMap, rgb) by {
      if !Contains(s.colorMap, rgb) {
        IndexOfNew(s.colorMap, rgb);
      }
    }
    var pixel := TikzPixel(x := cell.1, y := img.rows - cell.0 - 1, colorIndex := IndexOf(colorMap, rgb));
    Scanned(colorMap, s.pixelMap + [pixel])
  }

  /** `Visit` unfolded field by field, for the proofs that need its exact lists. */
  lemma VisitUnfold(img: Image, name: string, s: Scanned, cell: Cell)
    requires img.Valid() && cell.0 < img.rows && cell.1 < img.cols
    ensures var rgb := RgbAt(img, cell, name);
      var colorMap := if !Contains(s.colorMap, rgb) then s.colorMap + [rgb] else s.colorMap;
      && Contains(colorMap, rgb)
      && Visit(img, name, s, cell).colorMap == colorMap
      && Visit(img, name, s, cell).pixelMap == s.pixelMap + [TikzPixel(cell.1, img.rows - cell.0 - 1, IndexOf(colorMap, rgb))]
  {
    var rgb := RgbAt(img, cell, name);
    if !Contains(s.colorMap, rgb) {
      IndexOfNew(s.colorMap, rgb);
    }
  }

  /**
   * What one iteration achieves: the colour map grows exactly when the
   * cell's colour was missing, and then by at most that one entry; one pixel
   * is appended, at the flipped position, whose index is the first entry
   * with the cell's colour.
   */
  lemma VisitEffect(img: Image, name: string, s: Scanned, cell: Cell)
    requires img.Valid() && cell.0 < img.rows && cell.1 < img.cols
    ensures var rgb := RgbAt(img, cell, name);
      var after := Visit(img, name, s, cell);
      && (after.colorMap == s.colorMap <==> Contains(s.colorMap, rgb))
      && s.colorMap <= after.colorMap && |after.colorMap| <= |s.colorMap| + 1
      && |after.pixelMap| == |s.pixelMap| + 1 && after.pixelMap[..|s.pixelMap|] == s.pixelMap
      && var p := after.pixelMap[|s.pixelMap|];
        && FindColor(after.colorMap, rgb) == Some(p.colorIndex)
        && p.x == cell.1 && p.y == img.rows - 1 - cell.0
  {
    VisitUnfold(img, name, s, cell);
    var rgb := RgbAt(img, cell, name);
    var after := Visit(img, name, s, cell);
    if !Contains(s.colorMap, rgb) {
      assert |after.colorMap| == |s.colorMap| + 1;
    }
    assert after.pixelMap[..|s.pixelMap|] == s.pixelMap;
  }

  /** A cell whose colour is not yet in the map appends it and points at the new last entry. */
  lemma VisitNewColor(img: Image, name: string, s: Scanned, cell: Cell)
    requires img.Valid() && cell.0 < img.rows && cell.1 < img.cols
    requires !Contains(s.colorMap, RgbAt(img, cell, name))
    ensures Visit(img, name, s, cell) == Scanned(s.colorMap + [RgbAt(img, cell, name)],
      s.pixelMap + [TikzPixel(cell.1, img.rows - cell.0 - 1, |s.colorMap|)])
  {
    VisitUnfold(img, name, s, cell);
    IndexOfNew(s.colorMap, RgbAt(img, cell, name));
  }

  /** The state after visiting `cells`, in order, from empty lists. */
  function ScanCells(img: Image, name: string, cells: seq<Cell>): Scanned
    requires img.Valid() && InBounds(img, cells)
  {
    if cells == [] then Scanned([], [])
    else Visit(img, name, ScanCells(img, name, cells[..|cells| - 1]), cells[|cells| - 1])
  }

  /** The state after the whole image has been scanned row by row. */
  function Scan(img: Image, name: string): Scanned
    requires img.Valid()
  {
    ScanCells(img, name, ScanOrder(img.rows, img.cols))
  }

  /** Some pixel before position `k` refers to colour index `a`. */
  ghost predicate UsedBefore(pixelMap: seq<TikzPixel>, a: nat, k: nat)
    requires k <= |pixelMap|
  {
    exists k' :: 0 <= k' < k && pixelMap[k'].colorIndex == a
  }

  /** Pixel `k` of `s` was made from `cell`: its index resolves to the cell's colour, its coordinates are the flipped cell. */
  ghost predicate PixelFrom(img: Image, name: string, s: Scanned, k: nat, cell: Cell)
    requires img.Valid() && cell.0 < img.rows && cell.1 < img.cols && k < |s.pixelMap|
  {
    var p := s.pixelMap[k];
    && p.colorIndex < |s.colorMap|
    && s.colorMap[p.colorIndex] == RgbAt(img, cell, name)
    && p.x == cell.1
    && p.y == img.rows - 1 - cell.0
  }

  /** What holds of the lists after visiting `cells`. */
  ghost predicate Consistent(img: Image, name: string, cells: seq<Cell>, s: Scanned)
    requires img.Valid() && InBounds(img, cells)
  {
    && |s.pixelMap| == |cells|
    && |s.colorMap| <= |cells|
    && NoDuplicates(s.colorMap)
    && (forall k :: 0 <= k < |cells| ==> PixelFrom(img, name, s, k, cells[k]))
    // every colour in the map is used by some pixel
    && (forall a :: 0 <= a < |s.colorMap| ==> UsedBefore(s.pixelMap, a, |cells|))
    // colours receive their indices in order of first appearance
    && (forall k, a :: 0 <= k < |cells| && 0 <= a < s.pixelMap[k].colorIndex ==> UsedBefore(s.pixelMap, a, k))
  }

  lemma UsedBeforeExtend(pixelMap: seq<TikzPixel>, p: TikzPixel, a: nat, k: nat)
    requires k <= |pixelMap| && UsedBefore(pixelMap, a, k)
    ensures UsedBefore(pixelMap + [p], a, k)
  {
    var k' :| 0 <= k' < k && pixelMap[k'].colorIndex == a;
    assert (pixelMap + [p])[k'] == pixelMap[k'];
  }

  /** One iteration of the loop preserves Consistent. */
  lemma VisitConsistent(img: Image, name: string, cells: seq<Cell>, s: Scanned, cell: Cell)
    requires img.Valid() && InBounds(img, cells) && cell.0 < img.rows && cell.1 < img.cols
    requires Consistent(img, name, cells, s)
    ensures InBounds(img, cells + [cell])
    ensures Consistent(img, name, cells + [cell], Visit(img, name, s, cell))
  {
    var cells' := cells + [cell];
    var s' := Visit(img, name, s, cell);
    var rgb := RgbAt(img, cell, name);
    var n := |cells|;
    var cm, pm := s.colorMap, s.pixelMap;
    var cm', pm' := s'.colorMap, s'.pixelMap;
    assert cells'[n] == cell;
    if Contains(cm, rgb) {
      var idx := IndexOf(cm, rgb);
      assert UsedBefore(pm, idx, n);
      var k0 :| 0 <= k0 < n && pm[k0].colorIndex == idx;
      assert PixelFrom(img, name, s, k0, cells[k0]);
      assert cm[idx] == rgb;
    } else {
      IndexOfNew(cm, rgb);
      assert cm' == cm + [rgb];
      assert UsedBefore(pm', |cm|, n + 1) by {
        assert pm'[n].colorIndex == |cm|;
      }
    }
    assert pm' == pm + [pm'[n]];
    forall k | 0 <= k < n + 1
      ensures PixelFrom(img, name, s', k, cells'[k])
    {
      if k < n {
        assert pm'[k] == pm[k] && cells'[k] == cells[k];
        assert PixelFrom(img, name, s, k, cells[k]);
      }
    }
    var n' := n + 1;
    forall a | 0 <= a < |cm|
      ensures UsedBefore(pm', a, n')
    {
      UsedBeforeExtend(pm, pm'[n], a, n);
    }
    forall k, a | 0 <= k < n + 1 && 0 <= a < pm'[k].colorIndex
      ensures UsedBefore(pm', a, k)
    {
      if k < n {
        assert pm'[k] == pm[k];
        UsedBeforeExtend(pm, pm'[n], a, k);
      } else {
        UsedBeforeExtend(pm, pm'[n], a, n);
      }
    }
  }

  lemma {:induction false} ScanCellsConsistent(img: Image, name: string, cells: seq<Cell>)
    requires img.Valid() && InBounds(img, cells)
    ensures Consistent(img, name, cells, ScanCells(img, name, cells))
  {
    if cells != [] {
      var front := cells[..|cells| - 1];
      var last := cells[|cells| - 1];
      ScanCellsConsistent(img, name, front);
      VisitConsistent(img, name, front, ScanCells(img, name, front), last);
      assert front + [last] == cells;
    }
  }

  /** Each loop iteration leaves the colour map as it was or appends the cell's colour, and appends one pixel. */
  lemma ScanStep(img: Image, name: string, cells: seq<Cell>, cell: Cell)
    requires img.Valid() && InBounds(img, cells) && cell.0 < img.rows && cell.1 < img.cols
    ensures InBounds(img, cells + [cell])
    ensures var before := ScanCells(img, name, cells);
      var after := ScanCells(img, name, cells + [cell]);
      && (after.colorMap == before.colorMap || after.colorMap == before.colorMap + [RgbAt(img, cell, name)])
      && |after.pixelMap| == |before.pixelMap| + 1
      && after.pixelMap[..|before.pixelMap|] == before.pixelMap
  {
    assert (cells + [cell])[..|cells|] == cells;
  }

  /**
   * Entries and indices are stable: the lists after the first `k` cells
   * are prefixes of the lists after all of them.
   */
  lemma {:induction false} ScanCellsPrefix(img: Image, name: string, cells: seq<Cell>, k: nat)
    requires img.Valid() && InBounds(img, cells) && k <= |cells|
    ensures InBounds(img, cells[..k])
    ensures ScanCells(img, name, cells[..k]).colorMap <= ScanCells(img, name, cells).colorMap
    ensures ScanCells(img, name, cells[..k]).pixelMap <= ScanCells(img, name, cells).pixelMap
    decreases |cells| - k
  {
    if k < |cells| {
      var front := cells[..|cells| - 1];
      assert front[..k] == cells[..k];
      assert front + [cells[|cells| - 1]] == cells;
      ScanCellsPrefix(img, name, front, k);
      ScanStep(img, name, front, cells[|cells| - 1]);
      var mid := ScanCells(img, name, front);
      var late := ScanCells(img, name, cells);
      assert mid.colorMap <= late.colorMap;
      assert mid.pixelMap <= late.pixelMap;
    } else {
      assert cells[..k] == cells;
    }
  }

  /** The colours of `cells` are pairwise different under `__eq__`. */
  ghost predicate DistinctColors(img: Image, name: string, cells: seq<Cell>)
    requires img.Valid() && InBounds(img, cells)
  {
    forall k1, k2 :: 0 <= k1 < k2 < |cells| ==> !SameColor(RgbAt(img, cells[k1], name), RgbAt(img, cells[k2], name))
  }

  /** A colour is in the map after visiting `cells` exactly when one of those cells has it. */
  lemma ContainsIffSeen(img: Image, name: string, cells: seq<Cell>, rgb: TikzRgb)
    requires img.Valid() && InBounds(img, cells)
    ensures Contains(ScanCells(img, name, cells).colorMap, rgb) <==>
      exists k :: 0 <= k < |cells| && SameColor(RgbAt(img, cells[k], name), rgb)
  {
    var s := ScanCells(img, name, cells);
    ScanCellsConsistent(img, name, cells);
    if Contains(s.colorMap, rgb) {
      var a := IndexOf(s.colorMap, rgb);
      assert UsedBefore(s.pixelMap, a, |cells|);
      var k :| 0 <= k < |cells| && s.pixelMap[k].colorIndex == a;
      assert PixelFrom(img, name, s, k, cells[k]);
    }
    if exists k :: 0 <= k < |cells| && SameColor(RgbAt(img, cells[k], name), rgb) {
      var k :| 0 <= k < |cells| && SameColor(RgbAt(img, cells[k], name), rgb);
      assert PixelFrom(img, name, s, k, cells[k]);
    }
  }

  /** Appending a cell keeps the colours distinct exactly when its colour is new. */
  lemma DistinctSnoc(img: Image, name: string, cells: seq<Cell>)
    requires img.Valid() && InBounds(img, cells) && cells != []
    ensures var n := |cells| - 1;
      DistinctColors(img, name, cells) <==>
        && DistinctColors(img, name, cells[..n])
        && forall k :: 0 <= k < n ==> !SameColor(RgbAt(img, cells[..n][k], name), RgbAt(img, cells[n], name))
  {
    var n := |cells| - 1;
    var front := cells[..n];
    var rgb := RgbAt(img, cells[n], name);
    if DistinctColors(img, name, cells) {
      forall k1, k2 | 0 <= k1 < k2 < n
        ensures !SameColor(RgbAt(img, front[k1], name), RgbAt(img, front[k2], name))
      {
        assert cells[k1] == front[k1] && cells[k2] == front[k2];
      }
      forall k | 0 <= k < n
        ensures !SameColor(RgbAt(img, front[k], name), rgb)
      {
        assert cells[k] == front[k];
      }
    }
    if DistinctColors(img, name, front) && forall k :: 0 <= k < n ==> !SameColor(RgbAt(img, front[k], name), rgb) {
      forall k1, k2 | 0 <= k1 < k2 < |cells|
        ensures !SameColor(RgbAt(img, cells[k1], name), RgbAt(img, cells[k2], name))
      {
        assert cells[k1] == front[k1];
        if k2 < n {
          assert cells[k2] == front[k2];
        }
      }
    }
  }

  /** The colour map grows by one exactly when the visited cell's colour is not in it yet. */
  lemma ScanCellsGrowth(img: Image, name: string, cells: seq<Cell>)
    requires img.Valid() && InBounds(img, cells) && cells != []
    ensures var n := |cells| - 1;
      var before := ScanCells(img, name, cells[..n]).colorMap;
      |ScanCells(img, name, cells).colorMap| == |before| + (if Contains(before, RgbAt(img, cells[n], name)) then 0 else 1)
  {
    var n := |cells| - 1;
    VisitUnfold(img, name, ScanCells(img, name, cells[..n]), cells[n]);
  }

  /** The colour map is no longer than the list of visited cells. */
  lemma ScanCellsColorCount(img: Image, name: string, cells: seq<Cell>)
    requires img.Valid() && InBounds(img, cells)
    ensures |ScanCells(img, name, cells).colorMap| <= |cells|
  {
    ScanCellsConsistent(img, name, cells);
  }

  /** The colour map is as long as the pixel map exactly when no colour repeats. */
  lemma {:induction false} ColorMapFullIffDistinct(img: Image, name: string, cells: seq<Cell>)
    requires img.Valid() && InBounds(img, cells)
    ensures |ScanCells(img, name, cells).colorMap| == |cells| <==> DistinctColors(img, name, cells)
  {
    if cells != [] {
      var n := |cells| - 1;
      var front := cells[..n];
      ColorMapFullIffDistinct(img, name, front);
      ScanCellsColorCount(img, name, front);
      ContainsIffSeen(img, name, front, RgbAt(img, cells[n], name));
      DistinctSnoc(img, name, cells);
      ScanCellsGrowth(img, name, cells);
    }
  }

  /** Some pixel sits at (x, y). */
  ghost predicate Covers(pixelMap: seq<TikzPixel>, x: int, y: int) {
    exists k :: 0 <= k < |pixelMap| && pixelMap[k].x == x && pixelMap[k].y == y
  }

  /** The colour map of a scanned image: no duplicates, every entry named after the image and used, no longer than the pixel map. */
  lemma ScanColorMap(img: Image, name: string)
    requires img.Valid()
    ensures NoDuplicates(Scan(img, name).colorMap)
    ensures |Scan(img, name).pixelMap| == img.rows * img.cols
    ensures |Scan(img, name).colorMap| <= |Scan(img, name).pixelMap|
    ensures forall a :: 0 <= a < |Scan(img, name).colorMap| ==>
      Scan(img, name).colorMap[a].imageName == name && UsedBefore(Scan(img, name).pixelMap, a, |Scan(img, name).pixelMap|)
  {
    var cells := ScanOrder(img.rows, img.cols);
    var s := Scan(img, name);
    ScanCellsConsistent(img, name, cells);
    forall a | 0 <= a < |s.colorMap|
      ensures s.colorMap[a].imageName == name
    {
      assert UsedBefore(s.pixelMap, a, |cells|);
      var k :| 0 <= k < |cells| && s.pixelMap[k].colorIndex == a;
      assert PixelFrom(img, name, s, k, cells[k]);
    }
  }

  // ScanPixelPlace, ScanPixelColor and ScanNames each restate one part of
  // ScanPixel or ScanColorMap. Callers use them so that their proofs see only
  // the fact they need, which keeps those proofs small.

  /** Pixel `k` of the scan sits at the flipped position of the `k`-th cell in row-major order. */
  lemma ScanPixelPlace(img: Image, name: string, k: nat)
    requires img.Valid() && k < img.rows * img.cols
    ensures |Scan(img, name).pixelMap| == img.rows * img.cols
    ensures var (i, j) := ScanOrder(img.rows, img.cols)[k];
      Scan(img, name).pixelMap[k].x == j && Scan(img, name).pixelMap[k].y == img.rows - 1 - i
  {
    ScanPixel(img, name, k);
  }

  /** The colour-map entry of pixel `k` holds the channels of the `k`-th cell in row-major order. */
  lemma ScanPixelColor(img: Image, name: string, k: nat)
    requires img.Valid() && k < img.rows * img.cols
    ensures |Scan(img, name).pixelMap| == img.rows * img.cols
    ensures Scan(img, name).pixelMap[k].colorIndex < |Scan(img, name).colorMap|
    ensures var (i, j) := ScanOrder(img.rows, img.cols)[k];
      var c := Scan(img, name).colorMap[Scan(img, name).pixelMap[k].colorIndex];
      c.red == img.pixels[i][j].2 && c.green == img.pixels[i][j].1 && c.blue == img.pixels[i][j].0
  {
    ScanPixel(img, name, k);
  }

  /** The colours the scan records are distinct and carry the image's name. */
  lemma ScanNames(img: Image, name: string)
    requires img.Valid()
    ensures |Scan(img, name).pixelMap| == img.rows * img.cols
    ensures forall a :: 0 <= a < |Scan(img, name).colorMap| ==> Scan(img, name).colorMap[a].imageName == name
    ensures NoDuplicates(Scan(img, name).colorMap)
  {
    ScanColorMap(img, name);
  }

  /**
   * Pixel `k` comes from the `k`-th cell in row-major order, (i, j): its
   * index is the first (and only) position of that cell's colour, with red
   * from channel 2, green from channel 1 and blue from channel 0, and it
   * sits at x = j, y = rows - 1 - i.
   */
  lemma ScanPixel(img: Image, name: string, k: nat)
    requires img.Valid() && k < img.rows * img.cols
    ensures |Scan(img, name).pixelMap| == img.rows * img.cols
    ensures var (i, j) := ScanOrder(img.rows, img.cols)[k];
      var cm := Scan(img, name).colorMap;
      var p := Scan(img, name).pixelMap[k];
      && p.colorIndex < |cm|
      && FindColor(cm, RgbAt(img, (i, j), name)) == Some(p.colorIndex)
      && cm[p.colorIndex].red == img.pixels[i][j].2
      && cm[p.colorIndex].green == img.pixels[i][j].1
      && cm[p.colorIndex].blue == img.pixels[i][j].0
      && p.x == j && p.y == img.rows - 1 - i
  {
    var cells := ScanOrder(img.rows, img.cols);
    var s := Scan(img, name);
    ScanCellsConsistent(img, name, cells);
    assert PixelFrom(img, name, s, k, cells[k]);
    IndexOfEntry(s.colorMap, s.pixelMap[k].colorIndex);
  }

  /**
   * Colours receive indices in order of first appearance: every colour
   * whose index is below pixel `k`'s already occurs before pixel `k`.
   */
  lemma ScanFirstAppearance(img: Image, name: string)
    requires img.Valid()
    ensures forall k, a :: 0 <= k < |Scan(img, name).pixelMap| && 0 <= a < Scan(img, name).pixelMap[k].colorIndex ==>
      UsedBefore(Scan(img, name).pixelMap, a, k)
  {
    ScanCellsConsistent(img, name, ScanOrder(img.rows, img.cols));
  }

  /**
   * The pixels tile the rows x cols grid: each lies inside it, no two share
   * a position, and every position is covered.
   */
  lemma ScanCoordinates(img: Image, name: string)
    requires img.Valid()
    ensures forall k :: 0 <= k < |Scan(img, name).pixelMap| ==>
      0 <= Scan(img, name).pixelMap[k].x < img.cols && 0 <= Scan(img, name).pixelMap[k].y < img.rows
    ensures forall k1, k2 :: 0 <= k1 < k2 < |Scan(img, name).pixelMap| ==>
      (Scan(img, name).pixelMap[k1].x, Scan(img, name).pixelMap[k1].y) != (Scan(img, name).pixelMap[k2].x, Scan(img, name).pixelMap[k2].y)
    ensures forall x, y :: 0 <= x < img.cols && 0 <= y < img.rows ==> Covers(Scan(img, name).pixelMap, x, y)
  {
    var cells := ScanOrder(img.rows, img.cols);
    var pm := Scan(img, name).pixelMap;
    ScanNames(img, name);
    ScanOrderRowMajor(img.rows, img.cols);
    forall k | 0 <= k < |pm|
      ensures 0 <= pm[k].x < img.cols && 0 <= pm[k].y < img.rows
    {
      ScanPixelPlace(img, name, k);
    }
    forall k1, k2 | 0 <= k1 < k2 < |pm|
      ensures (pm[k1].x, pm[k1].y) != (pm[k2].x, pm[k2].y)
    {
      ScanPixelPlace(img, name, k1);
      ScanPixelPlace(img, name, k2);
      assert Before(cells[k1], cells[k2]);
    }
    forall x, y | 0 <= x < img.cols && 0 <= y < img.rows
      ensures Covers(pm, x, y)
    {
      ScanOrderComplete(img.rows, img.cols, img.rows - 1 - y, x);
      var k :| 0 <= k < |cells| && cells[k] == (img.rows - 1 - y, x);
      ScanPixelPlace(img, name, k);
    }
  }

  /**
   * The cells the source's loops read: `width = shape[0]` (the rows),
   * `height = shape[1]` (the columns), `i < height`, `j < width`, and the
   * cell read is `[i, j]`.
   */
  function SourceVisits(img: Image): seq<Cell> {
    ScanOrder(img.cols, img.rows)
  }

  predicate SquareOrEmpty(img: Image) {
    img.rows == img.cols || img.rows == 0 || img.cols == 0
  }

  /** The source's loops stay inside the image exactly when it is square or has no pixels. */
  lemma SourceVisitsInBoundsIff(img: Image)
    ensures InBounds(img, SourceVisits(img)) <==> SquareOrEmpty(img)
  {
    if img.rows < img.cols && img.rows > 0 {
      ScanOrderComplete(img.cols, img.rows, img.rows, 0);
    } else if img.cols < img.rows && img.cols > 0 {
      ScanOrderComplete(img.cols, img.rows, 0, img.cols);
    }
  }

  /**
   * A one-row, two-column image: the source's loops read row 1, which the
   * image does not have.
   */
  lemma WideImageReadsMissingRow(px: Bgr)
    ensures Image(1, 2, [[px, px]]).Valid()
    ensures SourceVisits(Image(1, 2, [[px, px]])) == [(0, 0), (1, 0)]
    ensures !InBounds(Image(1, 2, [[px, px]]), SourceVisits(Image(1, 2, [[px, px]])))
  {
    var img := Image(1, 2, [[px, px]]);
    assert ScanOrder(1, 1) == [(0, 0)];
    assert SourceVisits(img)[1].0 == 1 == img.rows;
  }

  /** Where they stay inside the image, the source's loops visit the cells in row-major order. */
  lemma SourceVisitsRowMajor(img: Image)
    requires SquareOrEmpty(img)
    ensures SourceVisits(img) == ScanOrder(img.rows, img.cols)
  {
  }

  /** The cells the source's loops have read after rows `< i` and, in row `i`, columns `< j`. */
  function LoopVisited(img: Image, i: nat, j: nat): seq<Cell>
    requires j <= img.rows
  {
    ScanOrder(i, img.rows) + RowOrder(i, img.rows)[..j]
  }

  /** One inner-loop iteration of the source at cell (i, j) is one `Visit`. */
  lemma LoopStep(img: Image, name: string, i: nat, j: nat)
    requires img.Valid() && SquareOrEmpty(img) && i < img.cols && j < img.rows
    ensures InBounds(img, LoopVisited(img, i, j)) && i < img.rows && j < img.cols
    ensures InBounds(img, LoopVisited(img, i, j + 1))
    ensures ScanCells(img, name, LoopVisited(img, i, j + 1))
      == Visit(img, name, ScanCells(img, name, LoopVisited(img, i, j)), (i, j))
  {
    var visited := LoopVisited(img, i, j);
    assert visited + [(i, j)] == LoopVisited(img, i, j + 1);
    assert (visited + [(i, j)])[..|visited|] == visited;
  }

  /** Finishing row `i` of the source's loops reaches the start of row `i + 1`. */
  lemma LoopRowDone(img: Image, i: nat)
    ensures LoopVisited(img, i, img.rows) == ScanOrder(i + 1, img.rows)
  {
    assert RowOrder(i, img.rows)[..img.rows] == RowOrder(i, img.rows);
  }

  /** `TikzImage`: the decoded image, its name, and the colour and pixel maps its constructor builds. */
  class TikzImage {
    const rgbImage: Image
    const fileName: string
    const width: nat
    const height: nat
    var colorMap: seq<TikzRgb>
    var pixelMap: seq<TikzPixel>

    /** The maps are those of the row-by-row scan of the image. */
    ghost predicate Valid()
      reads this
    {
      rgbImage.Valid() && Scanned(colorMap, pixelMap) == Scan(rgbImage, fileName)
    }

    /** `TikzImage.__init__`: scans the image, deduplicating colours, one pixel per cell. */
    constructor (rgbImage: Image, fileName: string)
      requires rgbImage.Valid() && SquareOrEmpty(rgbImage)
      ensures this.rgbImage == rgbImage && this.fileName == fileName
      ensures width == rgbImage.rows && height == rgbImage.cols
      ensures Valid()
    {
      this.rgbImage := rgbImage;
      this.fileName := fileName;
      width := rgbImage.rows;
      height := rgbImage.cols;
      colorMap := [];
      pixelMap := [];
      new;
      for i := 0 to height
        invariant InBounds(rgbImage, ScanOrder(i, width))
        invariant Scanned(colorMap, pixelMap) == ScanCells(rgbImage, fileName, ScanOrder(i, width))
      {
        ScanRow(i);
      }
      SourceVisitsRowMajor(rgbImage);
    }
  
    /** The inner loop of `__init__`: visits row `i` of the source's loops, `j < width`. */
    method ScanRow(i: nat)
      requires rgbImage.Valid() && SquareOrEmpty(rgbImage) && width == rgbImage.rows && height == rgbImage.cols
      requires i < height
      requires InBounds(rgbImage, ScanOrder(i, width))
      requires Scanned(colorMap, pixelMap) == ScanCells(rgbImage, fileName, ScanOrder(i, width))
      modifies this
      ensures InBounds(rgbImage, ScanOrder(i + 1, width))
      ensures Scanned(colorMap, pixelMap) == ScanCells(rgbImage, fileName, ScanOrder(i + 1, width))
    {
      assert LoopVisited(rgbImage, i, 0) == ScanOrder(i, width);
      for j := 0 to width
        invariant InBounds(rgbImage, LoopVisited(rgbImage, i, j))
        invariant Scanned(colorMap, pixelMap) == ScanCells(rgbImage, fileName, LoopVisited(rgbImage, i, j))
      {
        LoopStep(rgbImage, fileName, i, j);
        VisitCell(i, j);
      }
      LoopRowDone(rgbImage, i);
    }

    /** The body of the inner loop of `__init__` at cell (i, j): one `Visit`. */
    method VisitCell(i: nat, j: nat)
      requires rgbImage.Valid() && width == rgbImage.rows
      requires i < rgbImage.rows && j < rgbImage.cols
      modifies this
      ensures Scanned(colorMap, pixelMap) == Visit(rgbImage, fileName, old(Scanned(colorMap, pixelMap)), (i, j))
    {
      ghost var before := Scanned(colorMap, pixelMap);
      var red := rgbImage.pixels[i][j].2;
      var green := rgbImage.pixels[i][j].1;
      var blue := rgbImage.pixels[i][j].0;
      var rgb := TikzRgb(red := red, green := green, blue := blue, imageName := fileName);
      if !Contains(colorMap, rgb) {
        IndexOfNew(colorMap, rgb);
        colorMap := colorMap + [rgb];
      }
      var index := IndexOf(colorMap, rgb);
      var pixel := TikzPixel(x := j, y := width - i - 1, colorIndex := index);
      pixelMap := pixelMap + [pixel];
      VisitUnfold(rgbImage, fileName, before, (i, j));
    }
  }
}
