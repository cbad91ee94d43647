/** `TikzPixel`: one cell of the picture and its `\node` instruction. */
module Pixels {
  import opened Wrappers
  import opened Strings
  import opened Colors

  datatype TikzPixel = TikzPixel(x: int, y: int, colorIndex: nat)

  const NodePrefix: string := "\\node[draw=none, fill="
  const NodeMiddleTail: string := " minimum width=1cm, minimum height=1cm] at ("
  /** The text between the colour name and the coordinates: `, minimum width=1cm, minimum height=1cm] at (`. */
  const NodeMiddle: string := [','] + NodeMiddleTail

  /**
   * `TikzPixel.to_instruction`: a borderless filled unit square at (x, y)
   * in the colour the pixel's index selects from the colour map.
   */
  function NodeInstruction(p: TikzPixel, colorMap: seq<TikzRgb>): string
    requires p.colorIndex < |colorMap|
  {
    NodePrefix + ColorName(colorMap[p.colorIndex]) + NodeMiddle + IntString(p.x) + "," + IntString(p.y) + ") {};"
  }

  /** Reads a `\node` line back into the colour name it fills with and its coordinates. */
  function ParseNode(line: string): Option<(string, int, int)> {
    var rest :- Expect(line, NodePrefix);
    var name := TakeUntil(rest, ',');
    var coordinates :- Expect(rest[|name|..], NodeMiddle);
    var (x, y) :- ParseCoordinates(coordinates);
    Some((name, x, y))
  }

  /** Reads the `<x>,<y>) {};` end of a `\node` line. */
  function ParseCoordinates(text: string): Option<(int, int)> {
    var (x, afterX) :- ReadInt(text);
    var yText :- Expect(afterX, ",");
    var (y, afterY) :- ReadInt(yText);
    if afterY == ") {};" then Some((x, y)) else None
  }

  /** The instruction as its fixed pieces, nested to the right. */
  lemma NodeParts(p: TikzPixel, colorMap: seq<TikzRgb>)
    requires p.colorIndex < |colorMap|
    ensures NodeInstruction(p, colorMap) == NodePrefix + (ColorName(colorMap[p.colorIndex]) + (NodeMiddle
      + (IntString(p.x) + ("," + (IntString(p.y) + ") {};")))))
  {
    Reassociate(NodePrefix, ColorName(colorMap[p.colorIndex]), NodeMiddle, IntString(p.x), ",", IntString(p.y), ") {};");
  }

  /** The coordinates of a `\node` line read back as the two numbers written. */
  lemma ParseNodeOf(name: string, x: int, y: int)
    requires ',' !in name
    ensures ParseNode(NodePrefix + (name + (NodeMiddle + (IntString(x) + ("," + (IntString(y) + ") {};"))))))
      == Some((name, x, y))
  {
    var coordinates := IntString(x) + ("," + (IntString(y) + ") {};"));
    var rest := name + (NodeMiddle + coordinates);
    ExpectLit(NodePrefix, rest);
    assert (NodeMiddle + coordinates)[0] == NodeMiddle[0] == ',';
    TakeUntilStop(name, ',', NodeMiddle + coordinates);
    ExpectLit(NodeMiddle, coordinates);
    ParseCoordinatesOf(x, y);
  }

  lemma ParseCoordinatesOf(x: int, y: int)
    ensures ParseCoordinates(IntString(x) + ("," + (IntString(y) + ") {};"))) == Some((x, y))
  {
    var yText := IntString(y) + ") {};";
    ReadIntString(x, "," + yText);
    ExpectLit(",", yText);
    ReadIntString(y, ") {};");
  }

  /**
   * Every `\node` line reads back as the name of the colour its index
   * selects and its own coordinates, unless the image name contains `,`,
   * which ends the name early.
   */
  lemma ParseNodeInstruction(p: TikzPixel, colorMap: seq<TikzRgb>)
    requires p.colorIndex < |colorMap|
    requires ',' !in colorMap[p.colorIndex].imageName
    ensures ParseNode(NodeInstruction(p, colorMap)) == Some((ColorName(colorMap[p.colorIndex]), p.x, p.y))
  {
    NoDelimiterInColorName(colorMap[p.colorIndex], ',');
    NodeParts(p, colorMap);
    ParseNodeOf(ColorName(colorMap[p.colorIndex]), p.x, p.y);
  }
}
