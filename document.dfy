/**
 * The `.pgf` document `image2tikz` writes: a `tikzpicture` whose colour map
 * section declares every colour and whose pixel section draws every pixel.
 * The output file is modelled as the text written to it.
 */
module Document {
  import opened Wrappers
  import opened Strings
  import opened Colors
  import opened ColorMap
  import opened Pixels
  import opened Scan

  const BeginLine: string := "\\begin{tikzpicture}"
  const EndLine: string := "\\end{tikzpicture}"
  const ColorMapHeader: string := "\t%COLOR MAP"
  const PixelHeader: string := "\t%IMAGE PIXEL"

  /** Every pixel names an entry of the colour map. */
  predicate IndicesValid(colorMap: seq<TikzRgb>, pixelMap: seq<TikzPixel>) {
    forall k :: 0 <= k < |pixelMap| ==> pixelMap[k].colorIndex < |colorMap|
  }

  /** One indented `\definecolor` line per colour, in colour-map order. */
  function ColorMapLines(colorMap: seq<TikzRgb>): (r: seq<string>)
    ensures |r| == |colorMap|
  {
    seq(|colorMap|, a requires 0 <= a < |colorMap| => "\t" + DefineInstruction(colorMap[a]))
  }

  /** One indented `\node` line per pixel, in pixel-map order. */
  function PixelLines(colorMap: seq<TikzRgb>, pixelMap: seq<TikzPixel>): (r: seq<string>)
    requires IndicesValid(colorMap, pixelMap)
    ensures |r| == |pixelMap|
  {
    seq(|pixelMap|, k requires 0 <= k < |pixelMap| => "\t" + NodeInstruction(pixelMap[k], colorMap))
  }

  /** The document's lines, without their line breaks. */
  function DocumentLines(colorMap: seq<TikzRgb>, pixelMap: seq<TikzPixel>): seq<string>
    requires IndicesValid(colorMap, pixelMap)
  {
    [BeginLine, "", ColorMapHeader] + ColorMapLines(colorMap)
    + ["", "", PixelHeader] + PixelLines(colorMap, pixelMap) + [EndLine]
  }

  /** The text of `lines`, each one followed by a line break. */
  function Unlines(lines: seq<string>): string {
    if lines == [] then "" else Unlines(lines[..|lines| - 1]) + (lines[|lines| - 1] + "\n")
  }

  lemma UnlinesAppend(lines: seq<string>, line: string)
    ensures Unlines(lines + [line]) == Unlines(lines) + (line + "\n")
  {
    assert (lines + [line])[..|lines|] == lines;
  }

  lemma HeadText()
    ensures Unlines([BeginLine, "", ColorMapHeader]) == "\\begin{tikzpicture}\n" + "\n\t%COLOR MAP\n"
  {
    assert [BeginLine, "", ColorMapHeader][..2] == [BeginLine, ""];
    assert [BeginLine, ""][..1] == [BeginLine];
    assert [BeginLine][..0] == [];
    assert Unlines([BeginLine]) == BeginLine + "\n";
    assert Unlines([BeginLine, ""]) == BeginLine + "\n" + "" + "\n";
    assert Unlines([BeginLine, "", ColorMapHeader]) == BeginLine + "\n" + "" + "\n" + ColorMapHeader + "\n";
  }

  /** Writing line `a` of `lines` after the lines before it. */
  lemma AppendLine(prefix: seq<string>, lines: seq<string>, a: nat)
    requires a < |lines|
    ensures Unlines(prefix + lines[..a + 1]) == Unlines(prefix + lines[..a]) + (lines[a] + "\n")
  {
    assert prefix + lines[..a + 1] == (prefix + lines[..a]) + [lines[a]];
    UnlinesAppend(prefix + lines[..a], lines[a]);
  }

  /** The pixel section's header after the colour map section. */
  lemma PixelHeaderText(front: seq<string>, lines: seq<string>)
    ensures Unlines(front + lines + ["", "", PixelHeader])
      == Unlines(front + lines[..|lines|]) + "\n\n\t%IMAGE PIXEL\n"
  {
    assert lines[..|lines|] == lines;
    UnlinesAppend(front + lines, "");
    UnlinesAppend(front + lines + [""], "");
    UnlinesAppend(front + lines + ["", ""], PixelHeader);
    assert front + lines + ["", ""] + [PixelHeader] == front + lines + ["", "", PixelHeader];
    assert front + lines + [""] + [""] == front + lines + ["", ""];
  }

  /** The closing line after the pixel section. */
  lemma EndText(front: seq<string>, lines: seq<string>)
    ensures Unlines(front + lines + [EndLine]) == Unlines(front + lines[..|lines|]) + "\\end{tikzpicture}\n"
  {
    assert lines[..|lines|] == lines;
    UnlinesAppend(front + lines, EndLine);
  }

  /**
   * The writing half of `image2tikz`: opens the picture, writes the colour
   * map section and the pixel section, and closes the picture.
   */
  method WriteDocument(image: TikzImage) returns (text: string)
    requires image.Valid()
    ensures IndicesValid(image.colorMap, image.pixelMap)
    ensures text == Unlines(DocumentLines(image.colorMap, image.pixelMap))
  {
    ScanIndicesValid(image.rgbImage, image.fileName);
    var colorMap := image.colorMap;
    var pixelMap := image.pixelMap;
    ghost var head := [BeginLine, "", ColorMapHeader];
    ghost var defines := ColorMapLines(colorMap);
    ghost var nodes := PixelLines(colorMap, pixelMap);
    text := "\\begin{tikzpicture}\n";
    text := text + "\n\t%COLOR MAP\n";
    HeadText();
    assert head + defines[..0] == head;
    for a := 0 to |colorMap|
      invariant text == Unlines(head + defines[..a])
    {
      AppendLine(head, defines, a);
      text := text + ("\t" + DefineInstruction(colorMap[a]) + "\n");
    }
    ghost var middle := head + defines + ["", "", PixelHeader];
    PixelHeaderText(head, defines);
    text := text + "\n\n\t%IMAGE PIXEL\n";
    assert middle + nodes[..0] == middle;
    for k := 0 to |pixelMap|
      invariant text == Unlines(middle + nodes[..k])
    {
      AppendLine(middle, nodes, k);
      text := text + ("\t" + NodeInstruction(pixelMap[k], colorMap) + "\n");
    }
    EndText(middle, nodes);
    text := text + "\\end{tikzpicture}\n";
  }

  /** Every pixel of a scanned image names an entry of its colour map. */
  lemma ScanIndicesValid(img: Image, name: string)
    requires img.Valid()
    ensures IndicesValid(Scan.Scan(img, name).colorMap, Scan.Scan(img, name).pixelMap)
  {
    forall k | 0 <= k < |Scan.Scan(img, name).pixelMap|
      ensures Scan.Scan(img, name).pixelMap[k].colorIndex < |Scan.Scan(img, name).colorMap|
    {
      ScanColorMap(img, name);
      ScanPixel(img, name, k);
    }
  }

  /** The colour an indented `\definecolor` line declares: its name and channels. */
  function Declared(line: string): Option<(string, nat, nat, nat)> {
    if line != [] && line[0] == '\t' then ParseDefinition(line[1..]) else None
  }

  /** The square an indented `\node` line draws: its colour name and position. */
  function Drawn(line: string): Option<(string, int, int)> {
    if line != [] && line[0] == '\t' then ParseNode(line[1..]) else None
  }

  /** Where each part of the document sits. */
  lemma DocumentLayout(colorMap: seq<TikzRgb>, pixelMap: seq<TikzPixel>)
    requires IndicesValid(colorMap, pixelMap)
    ensures var d := DocumentLines(colorMap, pixelMap);
      && |d| == |colorMap| + |pixelMap| + 7
      && d[0] == BeginLine && d[1] == "" && d[2] == ColorMapHeader
      && d[3 + |colorMap|] == "" && d[4 + |colorMap|] == "" && d[5 + |colorMap|] == PixelHeader
      && d[|d| - 1] == EndLine
      && (forall l :: 3 <= l < 3 + |colorMap| ==> d[l] == ColorMapLines(colorMap)[l - 3])
      && (forall l :: 6 + |colorMap| <= l < |d| - 1 ==> d[l] == PixelLines(colorMap, pixelMap)[l - 6 - |colorMap|])
  {
    SectionsLayout(ColorMapLines(colorMap), PixelLines(colorMap, pixelMap));
  }

  lemma SectionsLayout(defines: seq<string>, nodes: seq<string>)
    ensures var d := [BeginLine, "", ColorMapHeader] + defines + ["", "", PixelHeader] + nodes + [EndLine];
      && |d| == |defines| + |nodes| + 7
      && d[0] == BeginLine && d[1] == "" && d[2] == ColorMapHeader
      && d[3 + |defines|] == "" && d[4 + |defines|] == "" && d[5 + |defines|] == PixelHeader
      && d[|d| - 1] == EndLine
      && (forall l :: 3 <= l < 3 + |defines| ==> d[l] == defines[l - 3])
      && (forall l :: 6 + |defines| <= l < |d| - 1 ==> d[l] == nodes[l - 6 - |defines|])
  {
  }

  lemma DropTab(s: string)
    ensures Declared("\t" + s) == ParseDefinition(s)
    ensures Drawn("\t" + s) == ParseNode(s)
  {
    assert ("\t" + s)[1..] == s;
  }

  lemma ExpectMismatch(s: string, lit: string, i: nat)
    requires i < |lit| && i < |s| && s[i] != lit[i]
    ensures Expect(s, lit) == None
  {
  }

  /** A `\node` instruction declares no colour. */
  lemma NodeDeclaresNothing(p: TikzPixel, colorMap: seq<TikzRgb>)
    requires p.colorIndex < |colorMap|
    ensures ParseDefinition(NodeInstruction(p, colorMap)) == None
  {
    var line := NodeInstruction(p, colorMap);
    NodeParts(p, colorMap);
    ExpectMismatch(line, "\\definecolor{", 1);
  }

  /** A `\definecolor` instruction draws nothing. */
  lemma DefinitionDrawsNothing(c: TikzRgb)
    ensures ParseNode(DefineInstruction(c)) == None
  {
    var line := DefineInstruction(c);
    DefineParts(c);
    ExpectMismatch(line, NodePrefix, 1);
  }

  /** A colour map line declares its colour and draws nothing. */
  lemma DefineLine(c: TikzRgb)
    requires '}' !in c.imageName
    ensures Declared("\t" + DefineInstruction(c)) == Some((ColorName(c), c.red, c.green, c.blue))
    ensures Drawn("\t" + DefineInstruction(c)) == None
  {
    DropTab(DefineInstruction(c));
    ParseDefineInstruction(c);
    DefinitionDrawsNothing(c);
  }

  /** A pixel line draws its square and declares nothing. */
  lemma NodeLine(p: TikzPixel, colorMap: seq<TikzRgb>)
    requires p.colorIndex < |colorMap| && ',' !in colorMap[p.colorIndex].imageName
    ensures Drawn("\t" + NodeInstruction(p, colorMap)) == Some((ColorName(colorMap[p.colorIndex]), p.x, p.y))
    ensures Declared("\t" + NodeInstruction(p, colorMap)) == None
  {
    DropTab(NodeInstruction(p, colorMap));
    ParseNodeInstruction(p, colorMap);
    NodeDeclaresNothing(p, colorMap);
  }

  /** The fixed lines declare and draw nothing. */
  lemma FixedLines()
    ensures forall line :: line in [BeginLine, "", ColorMapHeader, PixelHeader, EndLine] ==>
      Declared(line) == None && Drawn(line) == None
  {
    DropTab("%COLOR MAP");
    DropTab("%IMAGE PIXEL");
    assert ColorMapHeader == "\t" + "%COLOR MAP";
    assert PixelHeader == "\t" + "%IMAGE PIXEL";
  }

  /** What a node line holds before the identifier it fills with. */
  const DrawLead: string := "\t" + NodePrefix

  /** What a declaration line holds before the identifier it declares. */
  const DeclareLead: string := "\t" + "\\definecolor{"

  lemma LeadThenName(tab: string, lead: string, id: string, rest: string)
    ensures (tab + (lead + (id + rest)))[..|tab + lead| + |id|] == (tab + lead) + id
  {
    assert tab + (lead + (id + rest)) == ((tab + lead) + id) + rest;
  }

  /**
   * For every image name: the line of pixel `k` names its colour right after
   * the fixed node lead, and the line of its colour-map entry, earlier in the
   * document, names the same identifier right after the fixed declaration lead.
   */
  lemma IdentifiersInPlace(colorMap: seq<TikzRgb>, pixelMap: seq<TikzPixel>, k: nat)
    requires IndicesValid(colorMap, pixelMap) && k < |pixelMap|
    ensures |DocumentLines(colorMap, pixelMap)| == |colorMap| + |pixelMap| + 7
    ensures var d := DocumentLines(colorMap, pixelMap);
      var a := pixelMap[k].colorIndex;
      var id := ColorName(colorMap[a]);
      && 3 + a < 6 + |colorMap| + k
      && d[6 + |colorMap| + k][..|DrawLead| + |id|] == DrawLead + id
      && d[3 + a][..|DeclareLead| + |id|] == DeclareLead + id
  {
    var d := DocumentLines(colorMap, pixelMap);
    var a := pixelMap[k].colorIndex;
    var c := colorMap[a];
    var id := ColorName(c);
    DocumentLayout(colorMap, pixelMap);
    assert d[6 + |colorMap| + k] == "\t" + NodeInstruction(pixelMap[k], colorMap);
    assert d[3 + a] == "\t" + DefineInstruction(c);
    NodeParts(pixelMap[k], colorMap);
    LeadThenName("\t", NodePrefix, id, NodeMiddle + (IntString(pixelMap[k].x) + ("," + (IntString(pixelMap[k].y) + ") {};"))));
    DefineParts(c);
    LeadThenName("\t", "\\definecolor{", id, "}{RGB}{"
      + (Decimal(c.red) + ("," + (Decimal(c.green) + ("," + (Decimal(c.blue) + "}"))))));
  }

  /** Line `6 + |colorMap| + k` draws pixel `k`. */
  lemma PixelLineDraws(colorMap: seq<TikzRgb>, pixelMap: seq<TikzPixel>, k: nat)
    requires IndicesValid(colorMap, pixelMap) && k < |pixelMap|
    requires ',' !in colorMap[pixelMap[k].colorIndex].imageName
    ensures |DocumentLines(colorMap, pixelMap)| == |colorMap| + |pixelMap| + 7
    ensures Drawn(DocumentLines(colorMap, pixelMap)[6 + |colorMap| + k])
      == Some((ColorName(colorMap[pixelMap[k].colorIndex]), pixelMap[k].x, pixelMap[k].y))
    ensures Declared(DocumentLines(colorMap, pixelMap)[6 + |colorMap| + k]) == None
  {
    var d := DocumentLines(colorMap, pixelMap);
    DocumentLayout(colorMap, pixelMap);
    assert d[6 + |colorMap| + k] == "\t" + NodeInstruction(pixelMap[k], colorMap);
    NodeLine(pixelMap[k], colorMap);
  }

  /** Line `3 + a` declares colour-map entry `a`. */
  lemma ColorLineDeclares(colorMap: seq<TikzRgb>, pixelMap: seq<TikzPixel>, a: nat)
    requires IndicesValid(colorMap, pixelMap) && a < |colorMap|
    requires '}' !in colorMap[a].imageName
    ensures |DocumentLines(colorMap, pixelMap)| == |colorMap| + |pixelMap| + 7
    ensures Declared(DocumentLines(colorMap, pixelMap)[3 + a])
      == Some((ColorName(colorMap[a]), colorMap[a].red, colorMap[a].green, colorMap[a].blue))
  {
    var d := DocumentLines(colorMap, pixelMap);
    DocumentLayout(colorMap, pixelMap);
    assert d[3 + a] == "\t" + DefineInstruction(colorMap[a]);
    DefineLine(colorMap[a]);
  }

  /**
   * Line `l` of the document declares a colour exactly when it lies in the
   * colour map section, and draws a square exactly when it lies in the pixel
   * section; what it declares or draws is the entry it was written from.
   */
  lemma DocumentLine(colorMap: seq<TikzRgb>, pixelMap: seq<TikzPixel>, l: nat)
    requires IndicesValid(colorMap, pixelMap)
    requires forall a :: 0 <= a < |colorMap| ==> '}' !in colorMap[a].imageName && ',' !in colorMap[a].imageName
    requires l < |colorMap| + |pixelMap| + 7
    ensures |DocumentLines(colorMap, pixelMap)| == |colorMap| + |pixelMap| + 7
    ensures Declared(DocumentLines(colorMap, pixelMap)[l]).Some? <==> 3 <= l < 3 + |colorMap|
    ensures 3 <= l < 3 + |colorMap| ==>
      var c := colorMap[l - 3];
      Declared(DocumentLines(colorMap, pixelMap)[l]) == Some((ColorName(c), c.red, c.green, c.blue))
    ensures Drawn(DocumentLines(colorMap, pixelMap)[l]).Some? <==> 6 + |colorMap| <= l < 6 + |colorMap| + |pixelMap|
    ensures 6 + |colorMap| <= l < 6 + |colorMap| + |pixelMap| ==>
      var p := pixelMap[l - 6 - |colorMap|];
      Drawn(DocumentLines(colorMap, pixelMap)[l]) == Some((ColorName(colorMap[p.colorIndex]), p.x, p.y))
  {
    DocumentLayout(colorMap, pixelMap);
    if 3 <= l < 3 + |colorMap| {
      DeclarationLineAt(colorMap, pixelMap, l);
    } else if 6 + |colorMap| <= l < 6 + |colorMap| + |pixelMap| {
      NodeLineAt(colorMap, pixelMap, l);
    } else {
      FixedLineAt(colorMap, pixelMap, l);
    }
  }

  /** A line of the colour map section declares its entry and draws nothing. */
  lemma DeclarationLineAt(colorMap: seq<TikzRgb>, pixelMap: seq<TikzPixel>, l: nat)
    requires IndicesValid(colorMap, pixelMap) && 3 <= l < 3 + |colorMap|
    requires '}' !in colorMap[l - 3].imageName
    ensures |DocumentLines(colorMap, pixelMap)| == |colorMap| + |pixelMap| + 7
    ensures var c := colorMap[l - 3];
      && Declared(DocumentLines(colorMap, pixelMap)[l]) == Some((ColorName(c), c.red, c.green, c.blue))
      && Drawn(DocumentLines(colorMap, pixelMap)[l]) == None
  {
    var c := colorMap[l - 3];
    assert DocumentLines(colorMap, pixelMap)[l] == "\t" + DefineInstruction(c) by {
      DocumentLayout(colorMap, pixelMap);
    }
    DefineLine(c);
  }

  /** A line of the pixel section draws its pixel and declares nothing. */
  lemma NodeLineAt(colorMap: seq<TikzRgb>, pixelMap: seq<TikzPixel>, l: nat)
    requires IndicesValid(colorMap, pixelMap) && 6 + |colorMap| <= l < 6 + |colorMap| + |pixelMap|
    requires ',' !in colorMap[pixelMap[l - 6 - |colorMap|].colorIndex].imageName
    ensures |DocumentLines(colorMap, pixelMap)| == |colorMap| + |pixelMap| + 7
    ensures var p := pixelMap[l - 6 - |colorMap|];
      && Drawn(DocumentLines(colorMap, pixelMap)[l]) == Some((ColorName(colorMap[p.colorIndex]), p.x, p.y))
      && Declared(DocumentLines(colorMap, pixelMap)[l]) == None
  {
    var k := l - 6 - |colorMap|;
    assert l == 6 + |colorMap| + k;
    PixelLineDraws(colorMap, pixelMap, k);
  }

  /** The fixed lines around the two sections declare and draw nothing. */
  lemma FixedLineAt(colorMap: seq<TikzRgb>, pixelMap: seq<TikzPixel>, l: nat)
    requires IndicesValid(colorMap, pixelMap) && l < |colorMap| + |pixelMap| + 7
    requires !(3 <= l < 3 + |colorMap|) && !(6 + |colorMap| <= l < 6 + |colorMap| + |pixelMap|)
    ensures |DocumentLines(colorMap, pixelMap)| == |colorMap| + |pixelMap| + 7
    ensures Declared(DocumentLines(colorMap, pixelMap)[l]) == None
    ensures Drawn(DocumentLines(colorMap, pixelMap)[l]) == None
  {
    DocumentLayout(colorMap, pixelMap);
    var line := DocumentLines(colorMap, pixelMap)[l];
    assert line in [BeginLine, "", ColorMapHeader, PixelHeader, EndLine];
    FixedLines();
  }

  /**
   * Every square the document draws fills with a colour that the document
   * declares on exactly one line: the declaration of the pixel's colour-map
   * entry, which comes before the pixel section.
   */
  lemma DeclaredOnce(colorMap: seq<TikzRgb>, pixelMap: seq<TikzPixel>, name: string)
    requires IndicesValid(colorMap, pixelMap) && NoDuplicates(colorMap)
    requires forall a :: 0 <= a < |colorMap| ==> colorMap[a].imageName == name
    requires '}' !in name && ',' !in name
    ensures var d := DocumentLines(colorMap, pixelMap);
      forall m, l :: 6 + |colorMap| <= m < |d| - 1 && 0 <= l < |d| ==>
        && Drawn(d[m]).Some?
        && ((Declared(d[l]).Some? && Declared(d[l]).value.0 == Drawn(d[m]).value.0) <==>
            l == 3 + pixelMap[m - 6 - |colorMap|].colorIndex)
  {
    var d := DocumentLines(colorMap, pixelMap);
    DocumentLayout(colorMap, pixelMap);
    forall m, l | 6 + |colorMap| <= m < |d| - 1 && 0 <= l < |d|
      ensures Drawn(d[m]).Some?
      ensures (Declared(d[l]).Some? && Declared(d[l]).value.0 == Drawn(d[m]).value.0) <==>
        l == 3 + pixelMap[m - 6 - |colorMap|].colorIndex
    {
      var a := pixelMap[m - 6 - |colorMap|].colorIndex;
      DocumentLine(colorMap, pixelMap, m);
      DocumentLine(colorMap, pixelMap, l);
      if 3 <= l < 3 + |colorMap| {
        ColorNameInjective(colorMap[l - 3], colorMap[a]);
        if l - 3 < a {
          assert !SameColor(colorMap[l - 3], colorMap[a]);
        } else if a < l - 3 {
          assert !SameColor(colorMap[a], colorMap[l - 3]);
        }
      }
    }
  }
}
