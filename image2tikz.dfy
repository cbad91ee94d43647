/**
 * `image2tikz`: derives the output name, scans the decoded image and writes
 * the document. Locating and decoding the image file and the file writes
 * themselves are not modelled; the decoded image is a parameter and the
 * written text is the result.
 */
module Image2Tikz {
  import opened Wrappers
  import opened Colors
  import opened ColorMap
  import opened Pixels
  import opened Scan
  import opened Document
  import opened FileName

  /** The conversion from the base name and the decoded image to the output name and its text. */
  method Image2Tikz(baseName: string, image: Image) returns (outFileName: string, text: string)
    requires image.Valid() && SquareOrEmpty(image)
    ensures outFileName == NormalizedName(baseName) + ".pgf"
    ensures IndicesValid(Scan.Scan(image, NormalizedName(baseName)).colorMap, Scan.Scan(image, NormalizedName(baseName)).pixelMap)
    ensures var s := Scan.Scan(image, NormalizedName(baseName));
      text == Unlines(DocumentLines(s.colorMap, s.pixelMap))
  {
    var fileName;
    fileName, outFileName := OutputName(baseName);
    var tikzImage := new TikzImage(image, fileName);
    text := WriteDocument(tikzImage);
  }

  /**
   * The document of a scanned image, read back: the line of pixel `k`, which
   * stands for cell (i, j) in row-major order, draws a square at x = j,
   * y = rows - 1 - i, and the colour it names is declared on exactly one
   * line, before it, with the cell's red, green and blue channels.
   */
  lemma DocumentOfImage(image: Image, name: string, k: nat)
    requires image.Valid() && k < image.rows * image.cols
    requires '}' !in name && ',' !in name
    ensures |Scan.Scan(image, name).pixelMap| == image.rows * image.cols
    ensures IndicesValid(Scan.Scan(image, name).colorMap, Scan.Scan(image, name).pixelMap)
    ensures var s := Scan.Scan(image, name);
      |DocumentLines(s.colorMap, s.pixelMap)| == |s.colorMap| + |s.pixelMap| + 7
    ensures var s := Scan.Scan(image, name);
      var d := DocumentLines(s.colorMap, s.pixelMap);
      var (i, j) := ScanOrder(image.rows, image.cols)[k];
      var m := 6 + |s.colorMap| + k;
      && m < |d|
      && Drawn(d[m]).Some?
      && Drawn(d[m]).value.1 == j && Drawn(d[m]).value.2 == image.rows - 1 - i
      && (exists l :: 0 <= l < m && Declared(d[l]) ==
            Some((Drawn(d[m]).value.0, image.pixels[i][j].2, image.pixels[i][j].1, image.pixels[i][j].0)))
      && (forall l :: 0 <= l < |d| && Declared(d[l]).Some? && Declared(d[l]).value.0 == Drawn(d[m]).value.0 ==>
            l == 3 + s.pixelMap[k].colorIndex)
  {
    var s := Scan.Scan(image, name);
    ScanNames(image, name);
    PixelLineDrawn(image, name, k);
    PixelColorDeclared(image, name, k);
    DeclaredOnce(s.colorMap, s.pixelMap, name);
    var a := s.pixelMap[k].colorIndex;
    assert 3 + a < 6 + |s.colorMap| + k;
  }

  /** The line of pixel `k` draws the cell's square with its colour-map entry's name. */
  lemma PixelLineDrawn(image: Image, name: string, k: nat)
    requires image.Valid() && k < image.rows * image.cols
    requires ',' !in name
    ensures |Scan.Scan(image, name).pixelMap| == image.rows * image.cols
    ensures IndicesValid(Scan.Scan(image, name).colorMap, Scan.Scan(image, name).pixelMap)
    ensures var s := Scan.Scan(image, name);
      |DocumentLines(s.colorMap, s.pixelMap)| == |s.colorMap| + |s.pixelMap| + 7
    ensures var s := Scan.Scan(image, name);
      var (i, j) := ScanOrder(image.rows, image.cols)[k];
      Drawn(DocumentLines(s.colorMap, s.pixelMap)[6 + |s.colorMap| + k])
        == Some((ColorName(s.colorMap[s.pixelMap[k].colorIndex]), j, image.rows - 1 - i))
  {
    var s := Scan.Scan(image, name);
    ScanIndicesValid(image, name);
    ScanNames(image, name);
    ScanPixelPlace(image, name, k);
    PixelLineDraws(s.colorMap, s.pixelMap, k);
  }

  /** The colour of pixel `k` is declared, with the cell's channels, on the line of its colour-map entry. */
  lemma PixelColorDeclared(image: Image, name: string, k: nat)
    requires image.Valid() && k < image.rows * image.cols
    requires '}' !in name
    ensures |Scan.Scan(image, name).pixelMap| == image.rows * image.cols
    ensures IndicesValid(Scan.Scan(image, name).colorMap, Scan.Scan(image, name).pixelMap)
    ensures var s := Scan.Scan(image, name);
      |DocumentLines(s.colorMap, s.pixelMap)| == |s.colorMap| + |s.pixelMap| + 7
    ensures var s := Scan.Scan(image, name);
      var (i, j) := ScanOrder(image.rows, image.cols)[k];
      var a := s.pixelMap[k].colorIndex;
      var px := image.pixels[i][j];
      Declared(DocumentLines(s.colorMap, s.pixelMap)[3 + a]) == Some((ColorName(s.colorMap[a]), px.2, px.1, px.0))
  {
    var s := Scan.Scan(image, name);
    ScanIndicesValid(image, name);
    ScanNames(image, name);
    ScanPixelColor(image, name, k);
    ColorLineDeclares(s.colorMap, s.pixelMap, s.pixelMap[k].colorIndex);
  }

  const RedPixel: Bgr := (0, 0, 255)
  const GreenPixel: Bgr := (0, 255, 0)
  const BluePixel: Bgr := (255, 0, 0)

  /** A 2×2 image whose top row is red, red and whose bottom row is blue, green. */
  const Example: Image := Image(2, 2, [[RedPixel, RedPixel], [BluePixel, GreenPixel]])

  lemma ScanCellsSnoc(image: Image, name: string, cells: seq<Cell>, cell: Cell)
    requires image.Valid() && InBounds(image, cells) && cell.0 < image.rows && cell.1 < image.cols
    ensures InBounds(image, cells + [cell])
    ensures ScanCells(image, name, cells + [cell]) == Visit(image, name, ScanCells(image, name, cells), cell)
  {
    assert (cells + [cell])[..|cells|] == cells;
  }

  lemma ExampleOrder()
    ensures ScanOrder(2, 2) == [(0, 0), (0, 1), (1, 0), (1, 1)]
  {
    assert ScanOrder(1, 2) == [(0, 0), (0, 1)];
  }

  lemma ExampleFirstRow(name: string)
    ensures Example.Valid() && InBounds(Example, [(0, 0), (0, 1)])
    ensures ScanCells(Example, name, [(0, 0), (0, 1)])
      == Scanned([TikzRgb(255, 0, 0, name)], [TikzPixel(0, 1, 0), TikzPixel(1, 1, 0)])
  {
    var red := TikzRgb(255, 0, 0, name);
    ScanCellsSnoc(Example, name, [], (0, 0));
    VisitUnfold(Example, name, Scanned([], []), (0, 0));
    IndexOfNew([], red);
    assert ScanCells(Example, name, [(0, 0)]) == Scanned([red], [TikzPixel(0, 1, 0)]);
    ScanCellsSnoc(Example, name, [(0, 0)], (0, 1));
    VisitUnfold(Example, name, Scanned([red], [TikzPixel(0, 1, 0)]), (0, 1));
    IndexOfEntry([red], 0);
  }

  lemma ExampleThirdCell(name: string)
    ensures Example.Valid() && InBounds(Example, [(0, 0), (0, 1), (1, 0)])
    ensures ScanCells(Example, name, [(0, 0), (0, 1), (1, 0)])
      == Scanned([TikzRgb(255, 0, 0, name), TikzRgb(0, 0, 255, name)],
                 [TikzPixel(0, 1, 0), TikzPixel(1, 1, 0), TikzPixel(0, 0, 1)])
  {
    var red := TikzRgb(255, 0, 0, name);
    var blue := TikzRgb(0, 0, 255, name);
    var firstRow := Scanned([red], [TikzPixel(0, 1, 0), TikzPixel(1, 1, 0)]);
    ExampleFirstRow(name);
    ScanCellsSnoc(Example, name, [(0, 0), (0, 1)], (1, 0));
    assert [(0, 0), (0, 1)] + [(1, 0)] == [(0, 0), (0, 1), (1, 0)];
    assert RgbAt(Example, (1, 0), name) == blue;
    assert !SameColor(red, blue);
    VisitNewColor(Example, name, firstRow, (1, 0));
  }

  lemma ExampleSecondRow(name: string)
    ensures Example.Valid() && InBounds(Example, [(0, 0), (0, 1), (1, 0), (1, 1)])
    ensures ScanCells(Example, name, [(0, 0), (0, 1), (1, 0), (1, 1)])
      == Scanned([TikzRgb(255, 0, 0, name), TikzRgb(0, 0, 255, name), TikzRgb(0, 255, 0, name)],
                 [TikzPixel(0, 1, 0), TikzPixel(1, 1, 0), TikzPixel(0, 0, 1), TikzPixel(1, 0, 2)])
  {
    var red := TikzRgb(255, 0, 0, name);
    var blue := TikzRgb(0, 0, 255, name);
    var green := TikzRgb(0, 255, 0, name);
    var thirdCell := Scanned([red, blue], [TikzPixel(0, 1, 0), TikzPixel(1, 1, 0), TikzPixel(0, 0, 1)]);
    ExampleThirdCell(name);
    ScanCellsSnoc(Example, name, [(0, 0), (0, 1), (1, 0)], (1, 1));
    assert [(0, 0), (0, 1), (1, 0)] + [(1, 1)] == [(0, 0), (0, 1), (1, 0), (1, 1)];
    assert RgbAt(Example, (1, 1), name) == green;
    assert !SameColor(red, green) && !SameColor(blue, green);
    VisitNewColor(Example, name, thirdCell, (1, 1));
  }

  /**
   * The 2×2 example: the colour map is red, blue, green, and the pixels,
   * in visiting order, are (0, 1, red), (1, 1, red), (0, 0, blue),
   * (1, 0, green) as (x, y, colour index).
   */
  lemma TwoByTwoExample(name: string)
    ensures Example.Valid()
    ensures Scan.Scan(Example, name).colorMap ==
      [TikzRgb(255, 0, 0, name), TikzRgb(0, 0, 255, name), TikzRgb(0, 255, 0, name)]
    ensures Scan.Scan(Example, name).pixelMap ==
      [TikzPixel(0, 1, 0), TikzPixel(1, 1, 0), TikzPixel(0, 0, 1), TikzPixel(1, 0, 2)]
  {
    ExampleOrder();
    ExampleSecondRow(name);
  }
}
