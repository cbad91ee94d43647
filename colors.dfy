/**
 * `TikzRGB`: one colour of the colour map, its TikzImage-wide identifier
 * and its `\definecolor` declaration.
 */
module Colors {
  import opened Wrappers
  import opened Strings

  /** One 8-bit channel value as the decoded image holds it. */
  type Channel = x: int | 0 <= x < 256

  datatype TikzRgb = TikzRgb(red: Channel, green: Channel, blue: Channel, imageName: string)

  /** `TikzRGB.__eq__`: the three channels decide, the image name does not. */
  predicate SameColor(a: TikzRgb, b: TikzRgb) {
    a.red == b.red && a.green == b.green && a.blue == b.blue
  }

  /** `TikzRGB.color_name`. */
  function ColorName(c: TikzRgb): string {
    "custom-color-" + c.imageName + "-" + Decimal(c.red) + "-" + Decimal(c.green) + "-" + Decimal(c.blue)
  }

  /** `TikzRGB.to_instruction`: the declaration of the colour under its name. */
  function DefineInstruction(c: TikzRgb): string {
    "\\definecolor{" + ColorName(c) + "}{RGB}{" + Decimal(c.red) + "," + Decimal(c.green) + "," + Decimal(c.blue) + "}"
  }

  /**
   * Reads a `\definecolor{<name>}{RGB}{<r>,<g>,<b>}` line back into the
   * declared name and the three channel values.
   */
  function ParseDefinition(line: string): Option<(string, nat, nat, nat)> {
    var rest :- Expect(line, "\\definecolor{");
    var name := TakeUntil(rest, '}');
    var triple :- Expect(rest[|name|..], "}{RGB}{");
    var (r, g, b) :- ParseTriple(triple);
    Some((name, r, g, b))
  }

  /** Reads the `<r>,<g>,<b>}` end of a declaration. */
  function ParseTriple(text: string): Option<(nat, nat, nat)> {
    var (r, afterRed) :- ReadNumber(text);
    var greenText :- Expect(afterRed, ",");
    var (g, afterGreen) :- ReadNumber(greenText);
    var blueText :- Expect(afterGreen, ",");
    var (b, afterBlue) :- ReadNumber(blueText);
    if afterBlue == "}" then Some((r, g, b)) else None
  }

  lemma NoCharInDecimal(n: nat, c: char)
    requires !IsDigit(c)
    ensures c !in Decimal(n)
  {
  }

  /** The delimiters `}` and `,` occur in a colour's name only through the image name. */
  lemma NoDelimiterInColorName(col: TikzRgb, c: char)
    requires c == '}' || c == ','
    requires c !in col.imageName
    ensures c !in ColorName(col)
  {
    NoCharInDecimal(col.red, c);
    NoCharInDecimal(col.green, c);
    NoCharInDecimal(col.blue, c);
    var tail := "-" + Decimal(col.red) + "-" + Decimal(col.green) + "-" + Decimal(col.blue);
    assert ColorName(col) == "custom-color-" + col.imageName + tail;
    assert c !in "custom-color-";
  }

  /** The declaration as its fixed pieces, nested to the right. */
  lemma DefineParts(c: TikzRgb)
    ensures DefineInstruction(c) == "\\definecolor{" + (ColorName(c) + ("}{RGB}{"
      + (Decimal(c.red) + ("," + (Decimal(c.green) + ("," + (Decimal(c.blue) + "}")))))))
  {
  }

  /** A declaration line reads back as the name and the three numbers written. */
  lemma ParseDefinitionOf(name: string, r: nat, g: nat, b: nat)
    requires '}' !in name
    ensures ParseDefinition("\\definecolor{" + (name + ("}{RGB}{"
      + (Decimal(r) + ("," + (Decimal(g) + ("," + (Decimal(b) + "}")))))))) == Some((name, r, g, b))
  {
    var triple := Decimal(r) + ("," + (Decimal(g) + ("," + (Decimal(b) + "}"))));
    var rest := name + ("}{RGB}{" + triple);
    ExpectLit("\\definecolor{", rest);
    assert ("}{RGB}{" + triple)[0] == '}';
    TakeUntilStop(name, '}', "}{RGB}{" + triple);
    ExpectLit("}{RGB}{", triple);
    ParseTripleOf(r, g, b);
  }

  lemma ParseTripleOf(r: nat, g: nat, b: nat)
    ensures ParseTriple(Decimal(r) + ("," + (Decimal(g) + ("," + (Decimal(b) + "}"))))) == Some((r, g, b))
  {
    var blue := Decimal(b) + "}";
    var green := Decimal(g) + ("," + blue);
    ReadDecimal(r, "," + green);
    ExpectLit(",", green);
    ReadDecimal(g, "," + blue);
    ExpectLit(",", blue);
    ReadDecimal(b, "}");
  }

  /**
   * Every declaration reads back as the colour's own name and channels,
   * unless the image name contains `}`, which ends the name early.
   */
  lemma ParseDefineInstruction(c: TikzRgb)
    requires '}' !in c.imageName
    ensures ParseDefinition(DefineInstruction(c)) == Some((ColorName(c), c.red, c.green, c.blue))
  {
    NoDelimiterInColorName(c, '}');
    DefineParts(c);
    ParseDefinitionOf(ColorName(c), c.red, c.green, c.blue);
  }

  lemma {:induction false} SplitAfterNumber(x: nat, u: string, y: nat, v: string)
    requires Decimal(x) + ("-" + u) == Decimal(y) + ("-" + v)
    ensures x == y && u == v
  {
    ReadDecimal(x, "-" + u);
    ReadDecimal(y, "-" + v);
    assert ("-" + u)[1..] == u;
    assert ("-" + v)[1..] == v;
  }

  lemma DropPrefix(p: string, x: string, y: string)
    requires p + x == p + y
    ensures x == y
  {
    assert x == (p + x)[|p|..];
  }

  /** The name as a common prefix followed by the channel numbers. */
  lemma ColorNameParts(c: TikzRgb)
    ensures ColorName(c) == ("custom-color-" + c.imageName + "-")
      + (Decimal(c.red) + ("-" + (Decimal(c.green) + ("-" + Decimal(c.blue)))))
  {
  }

  /**
   * Under one image name, two colours get the same identifier exactly when
   * they are equal in the sense of `__eq__`.
   */
  lemma {:induction false} ColorNameInjective(a: TikzRgb, b: TikzRgb)
    requires a.imageName == b.imageName
    ensures ColorName(a) == ColorName(b) <==> SameColor(a, b)
  {
    if ColorName(a) == ColorName(b) {
      ColorNameParts(a);
      ColorNameParts(b);
      var gbA := Decimal(a.green) + ("-" + Decimal(a.blue));
      var gbB := Decimal(b.green) + ("-" + Decimal(b.blue));
      DropPrefix("custom-color-" + a.imageName + "-", Decimal(a.red) + ("-" + gbA), Decimal(b.red) + ("-" + gbB));
      SplitAfterNumber(a.red, gbA, b.red, gbB);
      SplitAfterNumber(a.green, Decimal(a.blue), b.green, Decimal(b.blue));
      DecimalInjective(a.blue, b.blue);
    }
  }

  /** Digits after a `-` at the end of a text leave no room for a longer digit run. */
  lemma DigitRunNotLonger(u: string, dx: string, v: string, dy: string)
    requires u + ("-" + dx) == v + ("-" + dy)
    requires forall i :: 0 <= i < |dy| ==> IsDigit(dy[i])
    ensures |dy| <= |dx|
  {
    var s := v + ("-" + dy);
    assert forall i :: |v| + 1 <= i < |s| ==> s[i] == dy[i - |v| - 1];
    assert (u + ("-" + dx))[|u|] == '-';
  }

  /**
   * A text ending in `-<n>` splits there in one way only: the digits after
   * the last `-` are the whole of `<n>`.
   */
  lemma {:induction false} SplitBeforeNumber(u: string, x: nat, v: string, y: nat)
    requires u + ("-" + Decimal(x)) == v + ("-" + Decimal(y))
    ensures u == v && x == y
  {
    var s := u + ("-" + Decimal(x));
    DigitRunNotLonger(u, Decimal(x), v, Decimal(y));
    DigitRunNotLonger(v, Decimal(y), u, Decimal(x));
    assert Decimal(x) == s[|s| - |Decimal(x)|..];
    assert Decimal(y) == s[|s| - |Decimal(y)|..];
    assert u == s[..|u|];
    assert v == s[..|v|];
    DecimalInjective(x, y);
  }

  /** The name as everything before the blue number, then `-<blue>`. */
  lemma ColorNameSplit(c: TikzRgb)
    ensures ColorName(c) == ((("custom-color-" + c.imageName) + ("-" + Decimal(c.red)))
      + ("-" + Decimal(c.green))) + ("-" + Decimal(c.blue))
  {
  }

  /**
   * Identifiers are unique per distinct (image name, colour) pair: two
   * colours get the same identifier exactly when their image names and
   * their three channels agree. No image name is excluded, since the
   * channel numbers after the last three `-` contain no `-`.
   */
  lemma {:induction false} ColorNameUnique(a: TikzRgb, b: TikzRgb)
    ensures ColorName(a) == ColorName(b) <==> a == b
  {
    if ColorName(a) == ColorName(b) {
      ColorNameSplit(a);
      ColorNameSplit(b);
      var redA := ("custom-color-" + a.imageName) + ("-" + Decimal(a.red));
      var redB := ("custom-color-" + b.imageName) + ("-" + Decimal(b.red));
      SplitBeforeNumber(redA + ("-" + Decimal(a.green)), a.blue, redB + ("-" + Decimal(b.green)), b.blue);
      SplitBeforeNumber(redA, a.green, redB, b.green);
      SplitBeforeNumber("custom-color-" + a.imageName, a.red, "custom-color-" + b.imageName, b.red);
      DropPrefix("custom-color-", a.imageName, b.imageName);
    }
  }
}
