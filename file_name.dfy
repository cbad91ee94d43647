/**
 * The output name `image2tikz` derives from the image's base name: lower-case,
 * trimmed, double spaces deleted, remaining spaces turned into hyphens,
 * trimmed of hyphens and whitespace, and `.pgf` appended.
 */
module FileName {
  /** The characters Python's `str.strip()` removes when given no argument. */
  predicate IsSpace(c: char) {
    || c == ' ' || '\t' <= c <= '\r' || '\U{1c}' <= c <= '\U{1f}'
    || c == '\U{85}' || c == '\U{a0}' || c == '\U{1680}' || '\U{2000}' <= c <= '\U{200a}'
    || c == '\U{2028}' || c == '\U{2029}' || c == '\U{202f}' || c == '\U{205f}' || c == '\U{3000}'
  }

  predicate IsHyphen(c: char) {
    c == '-'
  }

  predicate IsUpper(c: char) {
    'A' <= c <= 'Z'
  }

  /** `str.lower()` on one character, for the ASCII letters. */
  function LowerChar(c: char): (r: char)
    ensures !IsUpper(r)
    ensures IsUpper(c) ==> r as int == c as int + 32
    ensures !IsUpper(c) ==> r == c
  {
    if IsUpper(c) then (c as int + 32) as char else c
  }

  /** `str.lower()`, for the ASCII letters. */
  function Lower(s: string): (r: string)
    ensures |r| == |s|
    ensures forall i :: 0 <= i < |r| ==> r[i] == LowerChar(s[i])
  {
    seq(|s|, i requires 0 <= i < |s| => LowerChar(s[i]))
  }

  /** Drops the leading characters `drop` accepts. */
  function TrimLeft(s: string, drop: char -> bool): (r: string)
    ensures |r| <= |s| && r == s[|s| - |r|..]
    ensures forall i :: 0 <= i < |s| - |r| ==> drop(s[i])
    ensures r != [] ==> !drop(r[0])
  {
    if s != [] && drop(s[0]) then
      var r := TrimLeft(s[1..], drop);
      assert s[1..][|s| - 1 - |r|..] == s[|s| - |r|..];
      assert forall i :: 1 <= i < |s| - |r| ==> s[1..][i - 1] == s[i];
      r
    else s
  }

  /** Drops the trailing characters `drop` accepts. */
  function TrimRight(s: string, drop: char -> bool): (r: string)
    ensures |r| <= |s| && r == s[..|r|]
    ensures forall i :: |r| <= i < |s| ==> drop(s[i])
    ensures r != [] ==> !drop(r[|r| - 1])
  {
    if s != [] && drop(s[|s| - 1]) then
      var r := TrimRight(s[..|s| - 1], drop);
      assert s[..|s| - 1][..|r|] == s[..|r|];
      assert forall i :: |r| <= i < |s| - 1 ==> s[..|s| - 1][i] == s[i];
      r
    else s
  }

  /** `str.strip(chars)`: drops the characters `drop` accepts from both ends. */
  function Strip(s: string, drop: char -> bool): string {
    TrimRight(TrimLeft(s, drop), drop)
  }

  /** Python's `pat in s` for a string pattern. */
  predicate ContainsSub(s: string, pat: string) {
    (|pat| <= |s| && s[..|pat|] == pat) || (s != [] && ContainsSub(s[1..], pat))
  }

  lemma ContainsSubLength(s: string, pat: string)
    ensures ContainsSub(s, pat) ==> |pat| <= |s|
  {
    if s != [] {
      ContainsSubLength(s[1..], pat);
    }
  }

  /**
   * `s.replace(pat, rep)`: every occurrence of `pat`, found left to right
   * without overlapping, becomes `rep`.
   */
  function Replace(s: string, pat: string, rep: string): (r: string)
    requires pat != []
    ensures !ContainsSub(s, pat) ==> r == s
    ensures |rep| <= |pat| ==> |r| <= |s|
    ensures |rep| < |pat| && ContainsSub(s, pat) ==> |r| < |s|
    ensures forall c :: c in r ==> c in s || c in rep
    decreases |s|
  {
    if |s| < |pat| then
      ContainsSubLength(s, pat);
      s
    else if s[..|pat|] == pat then rep + Replace(s[|pat|..], pat, rep)
    else [s[0]] + Replace(s[1..], pat, rep)
  }

  /** What the `while '  ' in file_name` loop leaves: no two spaces in a row. */
  function DeleteDoubleSpaces(s: string): (r: string)
    ensures !ContainsSub(r, "  ")
    ensures |r| <= |s|
    ensures forall c :: c in r ==> c in s
    ensures NonSpaces(r) == NonSpaces(s)
    ensures SpaceRuns(r) == Parities(SpaceRuns(s))
    decreases |s|
  {
    if ContainsSub(s, "  ") then
      ReplacePairs(s);
      ParitiesTwice(SpaceRuns(s));
      DeleteDoubleSpaces(Replace(s, "  ", ""))
    else
      NoDoubleRuns(s);
      s
  }

  /** The characters other than the plain space, in order. */
  function NonSpaces(s: string): string {
    if s == [] then [] else (if s[0] == ' ' then [] else [s[0]]) + NonSpaces(s[1..])
  }

  /** One more space at the head of the first run. */
  function Bump(runs: seq<nat>): seq<nat>
    requires runs != []
  {
    [runs[0] + 1] + runs[1..]
  }

  /**
   * The lengths of the maximal runs of plain spaces: before the first other
   * character, between each two consecutive ones, and after the last.
   */
  function SpaceRuns(s: string): (r: seq<nat>)
    ensures |r| == |NonSpaces(s)| + 1
  {
    if s == [] then [0]
    else if s[0] == ' ' then Bump(SpaceRuns(s[1..]))
    else [0] + SpaceRuns(s[1..])
  }

  /** Each run length taken modulo 2. */
  function Parities(runs: seq<nat>): (r: seq<nat>)
    ensures |r| == |runs|
    ensures forall i :: 0 <= i < |r| ==> r[i] == runs[i] % 2
  {
    seq(|runs|, i requires 0 <= i < |runs| => runs[i] % 2)
  }

  lemma ParitiesTwice(runs: seq<nat>)
    ensures Parities(Parities(runs)) == Parities(runs)
  {
  }

  /** A leading space adds to the first run. */
  lemma SpaceCons(s: string)
    ensures NonSpaces([' '] + s) == NonSpaces(s)
    ensures SpaceRuns([' '] + s) == Bump(SpaceRuns(s))
  {
    assert ([' '] + s)[1..] == s;
  }

  /** A leading character other than a space starts with an empty run. */
  lemma OtherCons(c: char, s: string)
    requires c != ' '
    ensures NonSpaces([c] + s) == [c] + NonSpaces(s)
    ensures SpaceRuns([c] + s) == [0] + SpaceRuns(s)
  {
    assert ([c] + s)[1..] == s;
  }

  /** A text without a double space has no run longer than one space. */
  lemma {:induction false} NoDoubleRuns(s: string)
    requires !ContainsSub(s, "  ")
    ensures Parities(SpaceRuns(s)) == SpaceRuns(s)
  {
    if s != [] {
      var rest := s[1..];
      assert !ContainsSub(rest, "  ");
      NoDoubleRuns(rest);
      if s[0] == ' ' && rest != [] {
        assert s[..2] != "  ";
        assert rest[0] != ' ';
        assert SpaceRuns(rest) == [0] + SpaceRuns(rest[1..]);
      }
    }
  }

  /** What `ReplacePairs` states of one text. */
  predicate PairsRemoved(s: string) {
    && NonSpaces(Replace(s, "  ", "")) == NonSpaces(s)
    && SpaceRuns(Replace(s, "  ", "")) == Parities(SpaceRuns(s))
  }

  lemma ParitiesCons(n: nat, runs: seq<nat>)
    ensures Parities([n] + runs) == [n % 2] + Parities(runs)
  {
    assert forall i :: 0 <= i < |runs| ==> ([n] + runs)[i + 1] == runs[i];
  }

  lemma ParitiesBumpTwice(runs: seq<nat>)
    requires runs != []
    ensures Parities(Bump(Bump(runs))) == Parities(runs)
  {
    var twice := Bump(Bump(runs));
    assert forall i :: 0 <= i < |runs| ==> twice[i] % 2 == runs[i] % 2;
  }

  lemma ParitiesBumpEven(runs: seq<nat>)
    requires runs != [] && runs[0] % 2 == 0
    ensures Parities(Bump(runs)) == Bump(Parities(runs))
  {
    var p := Parities(runs);
    assert forall i :: 0 <= i < |runs| ==> Parities(Bump(runs))[i] == Bump(p)[i];
  }

  /** Two more leading spaces change no other character and no parity. */
  lemma RunsAfterPair(rest: string, tail: string)
    requires NonSpaces(tail) == NonSpaces(rest) && SpaceRuns(tail) == Parities(SpaceRuns(rest))
    ensures NonSpaces(tail) == NonSpaces([' '] + ([' '] + rest))
    ensures SpaceRuns(tail) == Parities(SpaceRuns([' '] + ([' '] + rest)))
  {
    var runs := SpaceRuns(rest);
    assert NonSpaces([' '] + ([' '] + rest)) == NonSpaces(rest) by {
      SpaceCons([' '] + rest);
      SpaceCons(rest);
    }
    assert SpaceRuns([' '] + ([' '] + rest)) == Bump(Bump(runs)) by {
      SpaceCons([' '] + rest);
      SpaceCons(rest);
    }
    ParitiesBumpTwice(runs);
  }

  /** A leading character that does not start a double space keeps the relation between the runs. */
  lemma RunsAfterChar(c: char, rest: string, tail: string)
    requires NonSpaces(tail) == NonSpaces(rest) && SpaceRuns(tail) == Parities(SpaceRuns(rest))
    requires c == ' ' ==> rest != [] && rest[0] != ' '
    ensures NonSpaces([c] + tail) == NonSpaces([c] + rest)
    ensures SpaceRuns([c] + tail) == Parities(SpaceRuns([c] + rest))
  {
    if c == ' ' {
      SpaceCons(rest);
      SpaceCons(tail);
      assert SpaceRuns(rest)[0] == 0 by {
        assert rest == [rest[0]] + rest[1..];
        OtherCons(rest[0], rest[1..]);
      }
      ParitiesBumpEven(SpaceRuns(rest));
    } else {
      OtherCons(c, rest);
      OtherCons(c, tail);
      ParitiesCons(0, SpaceRuns(rest));
    }
  }

  /** A leading double space is deleted, and deleting it changes no parity. */
  lemma PairsRemovedPair(rest: string)
    requires PairsRemoved(rest)
    ensures PairsRemoved("  " + rest)
  {
    var s := "  " + rest;
    assert Replace(s, "  ", "") == Replace(rest, "  ", "") by {
      assert s[..2] == "  " && s[2..] == rest;
      ReplaceHit(s, "  ", "");
      assert "" + Replace(rest, "  ", "") == Replace(rest, "  ", "");
    }
    RunsAfterPair(rest, Replace(rest, "  ", ""));
    assert s == [' '] + ([' '] + rest);
  }

  /** A leading character that does not start a double space is kept. */
  lemma PairsRemovedChar(c: char, rest: string)
    requires PairsRemoved(rest)
    requires c == ' ' ==> rest != [] && rest[0] != ' '
    ensures PairsRemoved([c] + rest)
  {
    var s := [c] + rest;
    var tail := Replace(rest, "  ", "");
    assert Replace(s, "  ", "") == [c] + tail by {
      if |s| >= 2 {
        assert s[..2] != "  " by {
          assert s[..2][0] == c && (c == ' ' ==> s[..2][1] == rest[0]);
        }
      }
      assert s[1..] == rest;
    }
    RunsAfterChar(c, rest, tail);
  }

  /**
   * One `replace('  ', '')` keeps every other character in order and turns
   * each run of n spaces into n % 2 spaces.
   */
  lemma {:induction false} ReplacePairs(s: string)
    ensures NonSpaces(Replace(s, "  ", "")) == NonSpaces(s)
    ensures SpaceRuns(Replace(s, "  ", "")) == Parities(SpaceRuns(s))
    decreases |s|
  {
    if |s| < 2 {
      assert Replace(s, "  ", "") == s;
      if s != [] {
        assert s[1..] == [];
      }
    } else if s[..2] == "  " {
      ReplacePairs(s[2..]);
      PairsRemovedPair(s[2..]);
      assert s == "  " + s[2..];
    } else {
      ReplacePairs(s[1..]);
      PairsRemovedChar(s[0], s[1..]);
      assert s == [s[0]] + s[1..];
    }
  }

  /** Only the empty text has no other character and no leading space. */
  lemma EmptyRuns(s: string)
    ensures s == [] <==> NonSpaces(s) == [] && SpaceRuns(s)[0] == 0
  {
    if s != [] {
      assert s == [s[0]] + s[1..];
      if s[0] == ' ' {
        SpaceCons(s[1..]);
      } else {
        OtherCons(s[0], s[1..]);
      }
    }
  }

  /** A text starts with a space exactly when its first run is not empty. */
  lemma HeadRun(s: string)
    requires s != []
    ensures s[0] == ' ' <==> SpaceRuns(s)[0] > 0
  {
    assert s == [s[0]] + s[1..];
    if s[0] == ' ' {
      SpaceCons(s[1..]);
    } else {
      OtherCons(s[0], s[1..]);
    }
  }

  /** The other characters and the run lengths together determine a text. */
  lemma {:induction false} RunsDetermine(a: string, b: string)
    requires NonSpaces(a) == NonSpaces(b) && SpaceRuns(a) == SpaceRuns(b)
    ensures a == b
    decreases |a|
  {
    EmptyRuns(a);
    EmptyRuns(b);
    if a != [] {
      assert a == [a[0]] + a[1..] && b == [b[0]] + b[1..];
      HeadRun(a);
      HeadRun(b);
      if a[0] == ' ' {
        assert NonSpaces(a[1..]) == NonSpaces(b[1..]) && SpaceRuns(a[1..]) == SpaceRuns(b[1..]) by {
          SpaceCons(a[1..]);
          SpaceCons(b[1..]);
          var x, y := SpaceRuns(a[1..]), SpaceRuns(b[1..]);
          assert x == [Bump(x)[0] - 1] + Bump(x)[1..];
          assert y == [Bump(y)[0] - 1] + Bump(y)[1..];
        }
      } else {
        assert NonSpaces(a[1..]) == NonSpaces(b[1..]) && SpaceRuns(a[1..]) == SpaceRuns(b[1..]) by {
          OtherCons(a[0], a[1..]);
          OtherCons(b[0], b[1..]);
          assert NonSpaces(a[1..]) == NonSpaces(a)[1..] && NonSpaces(b[1..]) == NonSpaces(b)[1..];
          assert SpaceRuns(a[1..]) == SpaceRuns(a)[1..] && SpaceRuns(b[1..]) == SpaceRuns(b)[1..];
        }
      }
      RunsDetermine(a[1..], b[1..]);
    }
  }

  /** The `while` loop never needs a second pass: one `replace('  ', '')` leaves no double space. */
  lemma SinglePass(s: string)
    ensures DeleteDoubleSpaces(s) == Replace(s, "  ", "")
  {
    var r := Replace(s, "  ", "");
    ReplacePairs(s);
    ParitiesTwice(SpaceRuns(s));
    RunsDetermine(DeleteDoubleSpaces(s), r);
  }

  /** `replace(c, d)` of one character by one other acts character by character. */
  lemma {:induction false} ReplaceEachChar(s: string, c: char, d: char)
    ensures |Replace(s, [c], [d])| == |s|
    ensures forall i :: 0 <= i < |s| ==> Replace(s, [c], [d])[i] == if s[i] == c then d else s[i]
    decreases |s|
  {
    if s != [] {
      ReplaceEachChar(s[1..], c, d);
      var tail := Replace(s[1..], [c], [d]);
      var head := if s[0] == c then d else s[0];
      assert Replace(s, [c], [d]) == [head] + tail by {
        assert s[..1] == [s[0]];
        assert s[1..] == s[|[c]|..];
      }
      forall i | 0 <= i < |s|
        ensures Replace(s, [c], [d])[i] == if s[i] == c then d else s[i]
      {
        if i > 0 {
          assert s[i] == s[1..][i - 1];
        }
      }
    }
  }

  /** The base name of the output file, before `.pgf` is appended. */
  function NormalizedName(baseName: string): string {
    var trimmed := Strip(Lower(baseName), IsSpace);
    var single := DeleteDoubleSpaces(trimmed);
    Strip(Strip(Replace(single, " ", "-"), IsHyphen), IsSpace)
  }

  /** The normalisation lines of `image2tikz`, starting from the extracted base name. */
  method OutputName(baseName: string) returns (fileName: string, outFileName: string)
    ensures fileName == NormalizedName(baseName)
    ensures outFileName == fileName + ".pgf"
  {
    fileName := Strip(Lower(baseName), IsSpace);
    ghost var trimmed := fileName;
    while ContainsSub(fileName, "  ")
      invariant DeleteDoubleSpaces(fileName) == DeleteDoubleSpaces(trimmed)
      decreases |fileName|
    {
      fileName := Replace(fileName, "  ", "");
    }
    fileName := Strip(Strip(Replace(fileName, " ", "-"), IsHyphen), IsSpace);
    outFileName := fileName + ".pgf";
  }

  lemma StripChars(s: string, drop: char -> bool)
    ensures forall c :: c in Strip(s, drop) ==> c in s
  {
    var left := TrimLeft(s, drop);
    var r := Strip(s, drop);
    forall c | c in r
      ensures c in s
    {
      var i :| 0 <= i < |r| && r[i] == c;
      assert c == left[i] by {
        assert r == left[..|r|];
      }
      assert c == s[|s| - |left| + i] by {
        assert left == s[|s| - |left|..];
      }
    }
  }

  /** `str.strip(chars)` leaves neither end droppable. */
  lemma StripEnds(s: string, drop: char -> bool)
    ensures var r := Strip(s, drop);
      r == [] || (!drop(r[0]) && !drop(r[|r| - 1]))
  {
  }

  /** The last three steps keep the characters other than spaces and add only hyphens. */
  lemma HyphenateChars(single: string)
    ensures forall c :: c in Strip(Strip(Replace(single, " ", "-"), IsHyphen), IsSpace) ==>
      (c in single && c != ' ') || c == '-'
  {
    var hyphenated := Replace(single, " ", "-");
    var dehyphened := Strip(hyphenated, IsHyphen);
    StripChars(hyphenated, IsHyphen);
    StripChars(dehyphened, IsSpace);
    ReplaceRemoves(single, ' ', "-");
  }

  /** Replacing every `c` by a text without `c` leaves no `c`. */
  lemma ReplaceRemoves(s: string, c: char, rep: string)
    requires c !in rep
    ensures c !in Replace(s, [c], rep)
    decreases |s|
  {
    if |s| >= 1 {
      ReplaceRemoves(s[1..], c, rep);
    }
  }

  /**
   * The normalised name holds no space and no upper-case ASCII letter, and
   * neither starts nor ends with whitespace.
   */
  lemma NormalizedNameShape(baseName: string)
    ensures var r := NormalizedName(baseName);
      && ' ' !in r
      && (forall i :: 0 <= i < |r| ==> !IsUpper(r[i]))
      && (r == [] || (!IsSpace(r[0]) && !IsSpace(r[|r| - 1])))
  {
    var lowered := Lower(baseName);
    var trimmed := Strip(lowered, IsSpace);
    var single := DeleteDoubleSpaces(trimmed);
    var r := NormalizedName(baseName);
    assert ' ' !in r by {
      HyphenateChars(single);
    }
    assert r == [] || (!IsSpace(r[0]) && !IsSpace(r[|r| - 1])) by {
      StripEnds(Strip(Replace(single, " ", "-"), IsHyphen), IsSpace);
    }
    forall i | 0 <= i < |r|
      ensures !IsUpper(r[i])
    {
      var c := r[i];
      if c != '-' {
        assert c in single by {
          assert c in r;
          HyphenateChars(single);
        }
        assert c in trimmed;
        assert c in lowered by {
          StripChars(lowered, IsSpace);
        }
        var j :| 0 <= j < |lowered| && lowered[j] == c;
      }
    }
  }

  /** Stripping a text none of whose characters is droppable changes nothing. */
  lemma StripNothing(s: string, drop: char -> bool)
    requires forall i :: 0 <= i < |s| ==> !drop(s[i])
    ensures Strip(s, drop) == s
  {
  }

  /** Lower-casing turns no character into whitespace other than what it was. */
  lemma LowerKeepsSpaces(s: string)
    requires forall i :: 0 <= i < |s| && IsSpace(s[i]) ==> s[i] == ' '
    ensures forall c :: c in Lower(s) && IsSpace(c) ==> c == ' '
  {
    forall c | c in Lower(s) && IsSpace(c)
      ensures c == ' '
    {
      var j :| 0 <= j < |s| && Lower(s)[j] == c;
      assert c == LowerChar(s[j]);
    }
  }

  /** Turning the spaces into hyphens and trimming hyphens leaves no whitespace, if spaces were the only kind. */
  lemma HyphenatedNoSpace(single: string)
    requires forall c :: c in single && IsSpace(c) ==> c == ' '
    ensures forall i :: 0 <= i < |Strip(Replace(single, " ", "-"), IsHyphen)| ==>
      !IsSpace(Strip(Replace(single, " ", "-"), IsHyphen)[i])
  {
    var hyphenated := Replace(single, " ", "-");
    StripChars(hyphenated, IsHyphen);
    ReplaceRemoves(single, ' ', "-");
    forall i | 0 <= i < |Strip(hyphenated, IsHyphen)|
      ensures !IsSpace(Strip(hyphenated, IsHyphen)[i])
    {
      assert Strip(hyphenated, IsHyphen)[i] in hyphenated;
    }
  }

  /**
   * When the only whitespace in the base name is the plain space, the
   * normalised name neither starts nor ends with a hyphen.
   */
  lemma HyphensTrimmed(baseName: string)
    requires forall i :: 0 <= i < |baseName| && IsSpace(baseName[i]) ==> baseName[i] == ' '
    ensures var r := NormalizedName(baseName);
      r == [] || (r[0] != '-' && r[|r| - 1] != '-')
  {
    var lowered := Lower(baseName);
    var single := DeleteDoubleSpaces(Strip(lowered, IsSpace));
    LowerKeepsSpaces(baseName);
    StripChars(lowered, IsSpace);
    HyphenatedNoSpace(single);
    StripNothing(Strip(Replace(single, " ", "-"), IsHyphen), IsSpace);
    StripEnds(Replace(single, " ", "-"), IsHyphen);
  }

  /** A text without `c` holds no `c`. */
  lemma AbsentChar(s: string, c: char)
    requires c !in s
    ensures !ContainsSub(s, [c])
  {
    if s != [] {
      assert s[0] != c;
      AbsentChar(s[1..], c);
    }
  }

  /** A text without spaces holds no double space. */
  lemma NoSpaceNoDouble(s: string)
    requires ' ' !in s
    ensures !ContainsSub(s, "  ")
  {
    if s != [] {
      assert s[0] != ' ';
      NoSpaceNoDouble(s[1..]);
    }
  }

  lemma ReplaceHit(s: string, pat: string, rep: string)
    requires pat != [] && |pat| <= |s| && s[..|pat|] == pat
    ensures Replace(s, pat, rep) == rep + Replace(s[|pat|..], pat, rep)
  {
  }

  lemma ReplaceMiss(c: char, s: string, rep: string)
    requires c != ' '
    ensures Replace([c] + s, "  ", rep) == [c] + Replace(s, "  ", rep)
  {
    if s != [] {
      assert ([c] + s)[..2][0] == c;
    }
    assert ([c] + s)[1..] == s;
  }

  /** A space-free prefix passes through `replace('  ', rep)` untouched. */
  lemma {:induction false} ReplaceAfterWord(a: string, t: string, rep: string)
    requires ' ' !in a
    ensures Replace(a + t, "  ", rep) == a + Replace(t, "  ", rep)
  {
    if a != [] {
      var c, rest := a[0], a[1..];
      assert c != ' ' && ' ' !in rest;
      calc {
        Replace(a + t, "  ", rep);
        { assert a + t == [c] + (rest + t); }
        Replace([c] + (rest + t), "  ", rep);
        { ReplaceMiss(c, rest + t, rep); }
        [c] + Replace(rest + t, "  ", rep);
        { ReplaceAfterWord(rest, t, rep); }
        [c] + (rest + Replace(t, "  ", rep));
        { assert a == [c] + rest; }
        a + Replace(t, "  ", rep);
      }
    } else {
      assert a + t == t;
    }
  }

  /** A text containing `pat` still contains it behind any prefix. */
  lemma {:induction false} ContainsSubAfter(a: string, t: string, pat: string)
    requires ContainsSub(t, pat)
    ensures ContainsSub(a + t, pat)
  {
    if a != [] {
      ContainsSubAfter(a[1..], t, pat);
      assert (a + t)[1..] == a[1..] + t;
      assert a + t != [];
    } else {
      assert a + t == t;
    }
  }

  /** `replace('  ', '')` joins two space-free words around a double space. */
  lemma ReplaceBetweenWords(a: string, b: string)
    requires ' ' !in a && ' ' !in b
    ensures ContainsSub(a + ("  " + b), "  ")
    ensures Replace(a + ("  " + b), "  ", "") == a + b
  {
    assert ("  " + b)[..2] == "  ";
    ContainsSubAfter(a, "  " + b, "  ");
    ReplaceAfterWord(a, "  " + b, "");
    assert ("  " + b)[2..] == b;
    ReplaceHit("  " + b, "  ", "");
    NoSpaceNoDouble(b);
    assert "" + b == b;
  }

  /**
   * A double space between two space-free words is deleted rather than
   * turned into a hyphen: the words are joined.
   */
  lemma DoubleSpaceBetweenWords(a: string, b: string)
    requires ' ' !in a && ' ' !in b
    ensures DeleteDoubleSpaces(a + ("  " + b)) == a + b
  {
    ReplaceBetweenWords(a, b);
    assert ' ' !in a + b;
    NoSpaceNoDouble(a + b);
  }

  /** The name after each of its steps. */
  lemma NormalizedNameVia(baseName: string, trimmed: string, single: string)
    requires Strip(Lower(baseName), IsSpace) == trimmed
    requires DeleteDoubleSpaces(trimmed) == single
    ensures NormalizedName(baseName) == Strip(Strip(Replace(single, " ", "-"), IsHyphen), IsSpace)
  {
  }

  /** Stripping a text whose two ends are not droppable changes nothing. */
  lemma StripKept(s: string, drop: char -> bool)
    requires s != [] && !drop(s[0]) && !drop(s[|s| - 1])
    ensures Strip(s, drop) == s
  {
  }

  /** Lower-casing a character turns neither whitespace into text nor text into whitespace or a hyphen. */
  lemma LowerCharKinds(c: char)
    ensures IsSpace(LowerChar(c)) <==> IsSpace(c)
    ensures IsHyphen(LowerChar(c)) <==> IsHyphen(c)
  {
  }

  /** `str.lower()` works character by character. */
  lemma LowerAppend(a: string, b: string)
    ensures Lower(a + b) == Lower(a) + Lower(b)
  {
  }

  /** Lower-casing and trimming leave two words and the double space between them in place. */
  lemma LoweredWords(a: string, b: string)
    requires a != [] && b != []
    requires !IsSpace(a[0]) && !IsSpace(b[|b| - 1])
    ensures Strip(Lower(a + ("  " + b)), IsSpace) == Lower(a) + ("  " + Lower(b))
  {
    var la, lb := Lower(a), Lower(b);
    LowerAppend(a, "  " + b);
    LowerAppend("  ", b);
    var lowered := la + ("  " + lb);
    assert Lower("  ") == "  ";
    LowerCharKinds(a[0]);
    LowerCharKinds(b[|b| - 1]);
    assert lowered[0] == la[0] && lowered[|lowered| - 1] == lb[|lb| - 1];
    StripKept(lowered, IsSpace);
  }

  /** The last three steps leave two joined words without whitespace unchanged. */
  lemma JoinedWordsKept(la: string, lb: string)
    requires la != [] && lb != []
    requires forall i :: 0 <= i < |la| ==> !IsSpace(la[i])
    requires forall i :: 0 <= i < |lb| ==> !IsSpace(lb[i])
    requires la[0] != '-' && lb[|lb| - 1] != '-'
    ensures Strip(Strip(Replace(la + lb, " ", "-"), IsHyphen), IsSpace) == la + lb
  {
    var joined := la + lb;
    assert ' ' !in joined;
    AbsentChar(joined, ' ');
    assert joined[0] == la[0] && joined[|joined| - 1] == lb[|lb| - 1];
    StripKept(joined, IsHyphen);
    StripNothing(joined, IsSpace);
  }

  /** Lower-casing keeps a text free of whitespace. */
  lemma LowerNoSpace(s: string)
    requires forall i :: 0 <= i < |s| ==> !IsSpace(s[i])
    ensures forall i :: 0 <= i < |Lower(s)| ==> !IsSpace(Lower(s)[i])
  {
    forall i | 0 <= i < |s|
      ensures !IsSpace(Lower(s)[i])
    {
      LowerCharKinds(s[i]);
    }
  }

  /**
   * A double space between two words without whitespace is deleted rather
   * than turned into a hyphen: `My  Photo` becomes `myphoto`, not `my-photo`.
   */
  lemma DoubleSpaceJoinsWords(a: string, b: string)
    requires a != [] && b != []
    requires forall i :: 0 <= i < |a| ==> !IsSpace(a[i])
    requires forall i :: 0 <= i < |b| ==> !IsSpace(b[i])
    requires a[0] != '-' && b[|b| - 1] != '-'
    ensures NormalizedName(a + ("  " + b)) == Lower(a) + Lower(b)
  {
    var la, lb := Lower(a), Lower(b);
    assert Strip(Lower(a + ("  " + b)), IsSpace) == la + ("  " + lb) by {
      LoweredWords(a, b);
    }
    assert DeleteDoubleSpaces(la + ("  " + lb)) == la + lb by {
      LowerNoSpace(a);
      LowerNoSpace(b);
      DoubleSpaceBetweenWords(la, lb);
    }
    assert Strip(Strip(Replace(la + lb, " ", "-"), IsHyphen), IsSpace) == la + lb by {
      LowerNoSpace(a);
      LowerNoSpace(b);
      LowerCharKinds(a[0]);
      LowerCharKinds(b[|b| - 1]);
      JoinedWordsKept(la, lb);
    }
    NormalizedNameVia(a + ("  " + b), la + ("  " + lb), la + lb);
  }

  lemma LowerNoUpper(s: string)
    requires forall i :: 0 <= i < |s| ==> !IsUpper(s[i])
    ensures Lower(s) == s
  {
  }

  lemma ExampleShieldedSteps()
    ensures Strip(Lower("-\t-x"), IsSpace) == "-\t-x"
    ensures DeleteDoubleSpaces("-\t-x") == "-\t-x"
    ensures Replace("-\t-x", " ", "-") == "-\t-x"
  {
    LowerNoUpper("-\t-x");
    assert !IsSpace("-\t-x"[0]) && !IsSpace("-\t-x"[3]);
    AbsentChar("-\t-x", ' ');
    NoSpaceNoDouble("-\t-x");
  }

  lemma ExampleShieldedHyphens()
    ensures Strip("-\t-x", IsHyphen) == "\t-x"
  {
    assert "-\t-x"[1..] == "\t-x";
    assert TrimLeft("-\t-x", IsHyphen) == "\t-x";
    assert !IsHyphen("\t-x"[2]);
  }

  lemma ExampleTabTrimmed()
    ensures TrimLeft("\t-x", IsSpace) == "-x"
  {
    assert IsSpace('\t') && !IsSpace('-');
    assert "\t-x"[1..] == "-x";
  }

  lemma ExampleShieldedSpaces()
    ensures Strip("\t-x", IsSpace) == "-x"
  {
    ExampleTabTrimmed();
    assert !IsSpace('x');
    assert "-x"[1] == 'x';
  }

  /**
   * A hyphen shielded by whitespace other than a plain space survives the
   * trimming: `-<tab>-x` becomes `-x`.
   */
  lemma ShieldedHyphenKept()
    ensures NormalizedName("-\t-x") == "-x"
  {
    ExampleShieldedSteps();
    NormalizedNameVia("-\t-x", "-\t-x", "-\t-x");
    ExampleShieldedHyphens();
    ExampleShieldedSpaces();
  }
}
