# image2tikz in Dafny

`image2tikz.py` turns a decoded raster image into a TikZ `tikzpicture`. The picture draws one borderless, filled 1cm square per pixel. It works in four steps:

- **Scan** (`TikzImage.__init__`). The nested loops read each pixel's channels. OpenCV stores them as blue, green, red, and the code reorders them to red, green, blue. Each colour goes into an insertion-ordered `color_map` that holds no duplicates; equality (`TikzRGB.__eq__`) compares only the three channels. Each cell then gets one `TikzPixel` in `pixel_map`, holding its colour's index and flipped coordinates.
- **Rendering**. `TikzRGB.color_name` builds the colour identifier `custom-color-<name>-<r>-<g>-<b>`. `TikzRGB.to_instruction` builds the `\definecolor` line that declares it. `TikzPixel.to_instruction` builds the `\node` line that draws a square filled with it.
- **Document assembly**. The document is the begin marker, a colour map section with one declaration per colour in index order, a pixel section with one node per pixel in scan order, and the end marker.
- **Output name**. The base name is lower-cased and stripped. Pairs of spaces are deleted, the remaining spaces become hyphens, hyphens and whitespace are stripped, and `.pgf` is appended.

The Dafny modules follow that structure:

- `Colors` holds `TikzRGB`, and `Pixels` holds `TikzPixel`.
- `ColorMap` holds the list operations `in` and `.index`.
- `Scan` holds `TikzImage`. Its constructor runs the source's nested loops. It is proved to end in the state that `Scan.Scan` (a fold of one loop iteration over the cells in row-major order) describes.
- `Document` holds the writer. It accumulates the text the `f.write` calls produce and is proved equal to the document's lines.
- `FileName` holds the name normalisation. Its `while` loop is proved against the function `DeleteDoubleSpaces`.
- `Image2Tikz` composes the steps. `Strings` renders and reads back Python's `str()` of integers, and `Wrappers` holds `Option`.

Parsers (`ParseDefinition`, `ParseNode`) read the generated lines back. They state what a line declares or draws without repeating how it is built.

Where the code behaves differently from what its names and comments suggest, the model follows the code:

- One might expect `My  Photo ` to become `my-photo.pgf`. The loop at image2tikz.py:105-106 deletes pairs of spaces instead, so the code yields `myphoto.pgf`. In general, two words without whitespace joined by a double space come out joined with nothing between them (`FileName.DoubleSpaceJoinsWords`). A run of n spaces becomes n % 2 spaces (`FileName.DeleteDoubleSpaces`), and one pass of `replace('  ', '')` already does this (`FileName.SinglePass`).
- `strip('-')` is guaranteed to remove the leading and trailing hyphens when the plain space is the only whitespace in the name (`FileName.HyphensTrimmed`). Other whitespace can shield a hyphen: `-<tab>-x` becomes `-x` (`FileName.ShieldedHyphenKept`).
- The loops read as a scan of rows, then columns. They use `shape[1]` as the row bound and `shape[0]` as the column bound (see Findings).

## Model

| member | source | states |
|---|---|---|
| Strings.Decimal | image2tikz.py:76 | `str()` of a channel value is a non-empty string of digits with no leading zero |
| Strings.IntString | image2tikz.py:60-61 | `str()` of a coordinate: a minus sign before the decimal digits of a negative value. ReadIntString states what it renders |
| Strings.DecimalRoundTrip | image2tikz.py:76 | reading the decimal rendering of `n` back gives `n` |
| Strings.DecimalInjective | image2tikz.py:76 | two channel values render the same exactly when they are equal |
| Strings.ReadIntString | image2tikz.py:60-61 | `str()` of a coordinate, followed by a non-digit, reads back to the coordinate and the rest |
| Colors.SameColor | image2tikz.py:87-94 | `TikzRGB.__eq__` between two colours: equal red, green and blue, ignoring the image name |
| Colors.ColorName | image2tikz.py:74-76 | `TikzRGB.color_name`: `custom-color-<name>-<r>-<g>-<b>`. ColorNameUnique, ColorNameInjective and NoDelimiterInColorName state what it promises |
| Colors.DefineInstruction | image2tikz.py:78-82 | `TikzRGB.to_instruction`: the `\definecolor{<identifier>}{RGB}{<r>,<g>,<b>}` line. ParseDefineInstruction states that it reads back |
| Colors.ColorNameInjective | image2tikz.py:74-76 | under one image name, two colours get the same identifier if and only if `__eq__` holds between them (equal red, green and blue) |
| Colors.ColorNameUnique | image2tikz.py:74-76 | for every image name, including names with `}` or `,`, two colours get the same identifier if and only if their image names and their red, green and blue are equal, so the identifier is unique per (image name, colour) pair |
| Colors.NoDelimiterInColorName | image2tikz.py:74-76 | an identifier contains `}` or `,` only if the image name does |
| Colors.ParseDefineInstruction | image2tikz.py:78-82 | the `\definecolor` line reads back to the colour's identifier and its red, green and blue values |
| ColorMap.FindColor | image2tikz.py:38-41 | `in` / `.index`: the result is the first position whose entry equals the colour by `__eq__`, and none exactly when no entry does |
| ColorMap.Contains | image2tikz.py:38 | `rgb in color_map`: some entry equals the colour by `__eq__` (FindColor states when) |
| ColorMap.IndexOf | image2tikz.py:41 | `color_map.index(rgb)`, called only once the colour is present: FindColor's first position |
| ColorMap.IndexOfAppend | image2tikz.py:38-41 | appending a colour leaves the index of every colour already present unchanged |
| ColorMap.IndexOfNew | image2tikz.py:38-41 | a colour that was missing gets the old length of the list as its index after the append |
| ColorMap.IndexOfEntry | image2tikz.py:38-41 | in a list without duplicates, the index of entry `a` is `a` |
| Pixels.NodeInstruction | image2tikz.py:58-61 | `TikzPixel.to_instruction`: the `\node` line filled with the identifier of `color_map[color_index]` at `(x,y)`. ParseNodeInstruction states that it reads back |
| Pixels.ParseNodeInstruction | image2tikz.py:58-61 | the `\node` line reads back to the identifier of `color_map[color_index]` and the pixel's x and y |
| Scan.ScanOrder | image2tikz.py:26-27 | the row-major order has rows × cols cells, all inside the image |
| Scan.ScanOrderRowMajor | image2tikz.py:26-27 | the order goes rows top to bottom and columns left to right, so no cell is visited twice |
| Scan.ScanOrderComplete | image2tikz.py:26-27 | every cell of the image is visited |
| Scan.Visit | image2tikz.py:33-46 | one iteration of the inner loop at a cell, as a function of the lists before it. VisitEffect states what it does |
| Scan.VisitEffect | image2tikz.py:33-46 | one iteration changes `color_map` exactly when the cell's colour was missing, and then only by appending one entry. It appends one pixel and keeps the old ones. The new pixel sits at x = column, y = rows - 1 - row, and its index is the first entry with the cell's colour |
| Scan.ScanCellsConsistent | image2tikz.py:25-46 | the loop invariant: one pixel per visited cell, whose index resolves to that cell's colour and whose position is the flipped cell. `color_map` holds no duplicates and is no longer than `pixel_map`, every entry is used by a pixel, and each index below a pixel's is used by an earlier pixel |
| Scan.ScanStep | image2tikz.py:38-46 | each iteration leaves `color_map` unchanged or appends exactly the cell's colour, and appends exactly one pixel |
| Scan.ScanCellsPrefix | image2tikz.py:38-46 | entries and indices never change: the lists after any prefix of the scan are prefixes of the final lists |
| Scan.ContainsIffSeen | image2tikz.py:37-39 | a colour is in `color_map` exactly when some visited cell has it |
| Scan.ColorMapFullIffDistinct | image2tikz.py:38-39 | `color_map` is as long as the visited cells exactly when all their colours differ |
| Scan.Scan | image2tikz.py:25-46 | the lists after visiting every cell in row-major order. ScanColorMap, ScanPixel, ScanFirstAppearance and ScanCoordinates state what they hold |
| Scan.ScanColorMap | image2tikz.py:21-46 | after the scan, `color_map` has no two entries with equal red, green and blue. `pixel_map` has rows × cols entries, `color_map` is no longer than `pixel_map`, and every entry is named after the image and used by a pixel |
| Scan.ScanPixel | image2tikz.py:33-45 | pixel k comes from the k-th cell (i, j). Its index is valid and is the first position of the cell's colour. That entry has red from channel 2, green from 1 and blue from 0, and the pixel sits at x = j, y = rows - 1 - i |
| Scan.ScanFirstAppearance | image2tikz.py:38-41 | colours are indexed in order of first appearance: every index below pixel k's is used by an earlier pixel |
| Scan.ScanCoordinates | image2tikz.py:42-45 | the pixels tile the grid: all inside it, no two at the same (x, y), every position covered |
| Scan.SourceVisitsInBoundsIff | image2tikz.py:17-35 | the loops as written (`i < shape[1]`, `j < shape[0]`, reading `[i, j]`) stay inside the image if and only if it is square or empty |
| Scan.WideImageReadsMissingRow | image2tikz.py:17-35 | on a one-row, two-column image the loops as written read row 1, which does not exist |
| Scan.SourceVisitsRowMajor | image2tikz.py:17-27 | on a square or empty image the loops as written visit the cells in row-major order |
| Scan.TikzImage.VisitCell | image2tikz.py:33-46 | one pass of the inner loop body at cell (i, j) leaves exactly the colour and pixel lists of one `Visit` of that cell from the lists before it |
| Scan.TikzImage.constructor | image2tikz.py:9-46 | on a square or empty image, `width` is the row count, `height` is the column count, and the final lists are the row-major scan's |
| Scan.TikzImage.ScanRow | image2tikz.py:27-46 | the inner loop over one row extends the scan by that row's cells |
| Document.WriteDocument | image2tikz.py:117-133 | the text written is the begin marker, the colour map header, one `\t`-indented declaration per colour, the pixel header, one indented node per pixel and the end marker, each line followed by a line break |
| Document.DocumentLines | image2tikz.py:118-132 | the lines the writer produces. DocumentLayout, DocumentLine, DeclaredOnce and IdentifiersInPlace state their layout and content |
| Document.ScanIndicesValid | image2tikz.py:41-46 | every pixel of a scanned image names an entry of `color_map` |
| Document.DocumentLayout | image2tikz.py:118-132 | the document has `len(color_map) + len(pixel_map) + 7` lines: declaration a is line 3 + a and pixel k is line 6 + `len(color_map)` + k |
| Document.DocumentLine | image2tikz.py:118-132 | a line declares a colour exactly when it is in the colour map section, and draws exactly when it is in the pixel section. What it declares or draws is the entry it was written from |
| Document.DeclaredOnce | image2tikz.py:118-132 | every identifier a node line uses is declared on exactly one line, the declaration of the pixel's colour-map entry, which comes before the pixel section |
| Document.IdentifiersInPlace | image2tikz.py:118-132 | for every image name, the line of pixel k holds its colour's identifier right after the fixed `\t\node[draw=none, fill=` lead, and the line of its colour-map entry, which comes earlier, holds the same identifier right after the fixed `\t\definecolor{` lead |
| FileName.Lower | image2tikz.py:104 | `lower()` leaves no ASCII capital and changes only ASCII capitals |
| FileName.TrimLeft | image2tikz.py:104 | the leading characters removed are all droppable, and what remains does not start with one |
| FileName.TrimRight | image2tikz.py:104 | the trailing characters removed are all droppable, and what remains does not end with one |
| FileName.Strip | image2tikz.py:104-107 | `str.strip(chars)`: TrimLeft, then TrimRight; StripEnds states that neither end is left droppable |
| FileName.Replace | image2tikz.py:106-107 | `replace` changes nothing when the pattern is absent. It does not lengthen when the replacement is no longer than the pattern, and strictly shortens when it is shorter and the pattern occurs. It introduces only characters of the replacement |
| FileName.ReplaceRemoves | image2tikz.py:107 | after `replace(' ', '-')` no space is left |
| FileName.DeleteDoubleSpaces | image2tikz.py:105-106 | what the loop leaves holds no double space and is no longer than its input. It keeps the characters other than the space, in order, and turns each maximal run of n spaces into n % 2 spaces |
| FileName.ReplacePairs | image2tikz.py:106 | one `replace('  ', '')` keeps the characters other than the space, in order, and turns each maximal run of n spaces into n % 2 spaces |
| FileName.RunsDetermine | image2tikz.py:105-106 | two texts with the same other characters and the same run lengths are equal, so the two facts above fix the loop's result |
| FileName.SinglePass | image2tikz.py:105-106 | the loop's result is that of a single `replace('  ', '')`: no second pass ever finds a double space |
| FileName.ReplaceEachChar | image2tikz.py:107 | replacing one character by one other (`replace(' ', '-')`) keeps the length and changes exactly the positions holding that character |
| FileName.NormalizedName | image2tikz.py:104-107 | the name after `lower().strip()`, the double-space loop, `replace(' ', '-')`, `strip('-')` and `strip()`. NormalizedNameShape, HyphensTrimmed, DoubleSpaceJoinsWords and ShieldedHyphenKept state what it yields |
| FileName.OutputName | image2tikz.py:103-108 | the loop (which terminates because each pass shortens the name) and the surrounding steps compute the normalised name, and the output name is that name followed by `.pgf` |
| FileName.NormalizedNameShape | image2tikz.py:104-108 | the normalised name has no space and no ASCII capital, and starts and ends with no whitespace |
| FileName.HyphensTrimmed | image2tikz.py:107 | when the plain space is the only whitespace in the base name, the result neither starts nor ends with a hyphen |
| FileName.DoubleSpaceBetweenWords | image2tikz.py:105-106 | the loop turns two space-free words around a double space into the two words joined, with no hyphen or space left between them |
| FileName.DoubleSpaceJoinsWords | image2tikz.py:103-108 | for any two non-empty words without whitespace, the first not starting and the second not ending with a hyphen, the name `a  b` (double space) normalises to lower(a) followed directly by lower(b), as `My  Photo` becomes `myphoto` |
| FileName.ShieldedHyphenKept | image2tikz.py:107 | `-<tab>-x` normalises to `-x` |
| Image2Tikz.Image2Tikz | image2tikz.py:97-133 | the output name is the normalised name plus `.pgf`, and the text is the document of the row-major scan of the image under that name |
| Image2Tikz.DocumentOfImage | image2tikz.py:114-132 | the node line of pixel k (cell (i, j)) draws at x = j, y = rows - 1 - i. The identifier it uses is declared on exactly one line, an earlier one, with red, green and blue equal to the cell's channels 2, 1 and 0 |
| Image2Tikz.PixelLineDrawn | image2tikz.py:129-130 | the document line of pixel k draws with the identifier of the pixel's colour-map entry at x = j, y = rows - 1 - i of the k-th cell (i, j) |
| Image2Tikz.PixelColorDeclared | image2tikz.py:123-124 | the declaration line of pixel k's colour-map entry declares that entry's identifier with the red, green and blue of the k-th cell's channels 2, 1 and 0 |
| Image2Tikz.TwoByTwoExample | image2tikz.py:25-46 | a 2×2 image with rows red, red / blue, green yields colours red, blue, green and pixels (0,1,0), (1,1,0), (0,0,1), (1,0,2) as (x, y, index) |

## Left out

- Loading the image with `cv2.imread` and the numpy array type (image2tikz.py:2-3, 111): the decoded image is a parameter, rows of (blue, green, red) triples with values 0..255.
- `os.path.exists`, the `FileNotFoundError` path, `basename` and `splitext` (98-103): filesystem calls. `FileName.OutputName` starts from the extracted base name.
- `open`, `write` and `close` of the output file (117-133): the writer returns the text that would be written.
- The progress counter `k`, its float percentage and every `print` (28-30, 121, 127, 136): they only report progress.
- `is_dev_mode` (139-146), which reads an environment variable, and the `argparse` command line (149-165).
- `TikzRGB.__str__` (84-85): nothing in the conversion uses it.
- The `isinstance` branch of `TikzRGB.__eq__` (88, 94): the colour map only ever compares `TikzRGB` values with each other.
- FileName.Lower: lowers the ASCII letters only. Python's `str.lower` also lowers other Unicode letters, which are not modelled.
- Scan.TikzImage.constructor: requires the image to be square or empty. On any other image the source's loops index outside the array and numpy raises `IndexError`, and that exception is not modelled.
- Colors.ParseDefineInstruction: requires the image name to contain no `}`. The source does not check this; with such a name the identifier no longer reads back as one `\definecolor` argument. For every name, Colors.ColorNameUnique still makes the identifier unique per colour.
- Pixels.ParseNodeInstruction: requires the image name to contain no `,`. The source does not check this; with such a name the `fill=` value ends early. For every name, Document.IdentifiersInPlace still places the identifier right after the node lead.
- Document.DeclaredOnce: requires the image name to contain no `}` and no `,`, for the same reasons. For every name, Document.IdentifiersInPlace places the same identifier on the node line and on its earlier declaration line, and Colors.ColorNameUnique keeps the identifiers of distinct colours apart.
- DocumentLine: what a line declares or draws is stated only for image names without `}` and `,`, for the same reason. For every name, Document.IdentifiersInPlace states where each identifier appears.
- DocumentOfImage: stated only for image names without `}` and `,`, for the same reason. For every name, Document.IdentifiersInPlace states where each identifier appears.
- PixelLineDrawn: stated only for image names without `,`, because a `,` in the identifier ends the `fill=` value early. For every name, Document.IdentifiersInPlace places the identifier right after the node lead.
- PixelColorDeclared: stated only for image names without `}`, because a `}` in the identifier closes the `\definecolor` argument early. For every name, Document.IdentifiersInPlace places the identifier right after the declaration lead.
- FileName.Replace: its own contract bounds only the length and the characters of the result. Its two uses in the source are pinned down by FileName.ReplacePairs (line 106) and FileName.ReplaceEachChar (line 107).

## Findings

| source | as written | input that shows it | evidently intended | confidence | as-written member | corrected member |
|---|---|---|---|---|---|---|
| image2tikz.py:17-35 | `width = shape[0]` (rows) and `height = shape[1]` (columns), but the loops run `i < height`, `j < width` and read `rgb_image[i, j]` | a 1×2 image (one row, two columns): the loops read `[1, 0]`, which raises `IndexError` | visit every (row, column) cell in row-major order, as `y = width - i - 1` presumes with `i` a row | not executed | Scan.WideImageReadsMissingRow | Scan.ScanCoordinates |
