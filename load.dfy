/** The validation a puzzle file goes through before it becomes the root
    state. The file is given as its lines, each with the colour tokens that
    splitting it at ", " yields. */
module Loader {
  import opened Wrappers
  import opened PoleState
  import opened Game

  datatype Line = Line(text: string, colors: seq<Color>)

  datatype LoadError =
    | IncorrectHeight(found: nat, expected: nat)
    | WrongEmptyCount(found: nat)
    | ColourMismatch(colours: nat, emptyPoles: nat, totalPoles: nat)

  function Lower(c: char): char
  {
    if 'A' <= c <= 'Z' then (c as int + 32) as char else c
  }

  /** The line is "empty" in any letter case. */
  predicate IsEmptyLine(text: string)
  {
    |text| == 5 && forall i :: 0 <= i < 5 ==> Lower(text[i]) == "empty"[i]
  }

  predicate IsComment(text: string)
  {
    |text| > 0 && text[0] == '#'
  }

  predicate IsColourLine(l: Line)
  {
    !IsEmptyLine(l.text) && !IsComment(l.text)
  }

  function CountEmpty(lines: seq<Line>): nat
  {
    if |lines| == 0 then 0
    else CountEmpty(lines[..|lines| - 1]) + (if IsEmptyLine(lines[|lines| - 1].text) then 1 else 0)
  }

  /** One pole per line that is not a comment, in file order. */
  function PolesOf(lines: seq<Line>): seq<Pole>
  {
    if |lines| == 0 then []
    else
      var l := lines[|lines| - 1];
      PolesOf(lines[..|lines| - 1]) +
      (if IsEmptyLine(l.text) then [Pole([])] else if !IsComment(l.text) then [Pole(l.colors)] else [])
  }

  /** The distinct colours named on the colour lines. */
  function ColourSet(lines: seq<Line>): set<Color>
  {
    if |lines| == 0 then {}
    else
      var l := lines[|lines| - 1];
      ColourSet(lines[..|lines| - 1]) + (if IsColourLine(l) then Elems(l.colors) else {})
  }

  /** The distinct colours of `s`. */
  function Elems(s: seq<Color>): set<Color>
  {
    if |s| == 0 then {} else Elems(s[..|s| - 1]) + {s[|s| - 1]}
  }

  lemma {:induction false} ElemsMember(s: seq<Color>, c: Color)
    ensures c in Elems(s) <==> c in s
  {
    if |s| > 0 {
      var n := |s| - 1;
      ElemsMember(s[..n], c);
      assert s == s[..n] + [s[n]];
    }
  }

  /** The pole height: the length of the first colour line with any colours,
      or 0 when there is none. */
  function FirstHeight(lines: seq<Line>): nat
  {
    if |lines| == 0 then 0
    else
      var h := FirstHeight(lines[..|lines| - 1]);
      var l := lines[|lines| - 1];
      if h == 0 && IsColourLine(l) then |l.colors| else h
  }

  /** Each colour line read once a height is set has that height. */
  ghost predicate HeightsConsistent(lines: seq<Line>)
  {
    forall i :: 0 <= i < |lines| && IsColourLine(lines[i]) && FirstHeight(lines[..i]) != 0 ==>
      |lines[i].colors| == FirstHeight(lines[..i])
  }

  /** Line `i` is the first colour line whose length differs from the height
      set by the lines before it. */
  ghost predicate FirstHeightBreak(lines: seq<Line>, i: nat)
  {
    && i < |lines| && IsColourLine(lines[i]) && HeightsConsistent(lines[..i])
    && FirstHeight(lines[..i]) != 0 && |lines[i].colors| != FirstHeight(lines[..i])
  }

  /** Load in GameState.cs, after the file is read: every line adds a pole
      (comments excepted) and its colours to the colour list, a colour line's
      height must match the first, and at the end there must be exactly two
      empty poles and one colour per non-empty pole. */
  method Load(lines: seq<Line>) returns (r: Result<GameState, LoadError>)
    ensures !HeightsConsistent(lines) <==> r.Err? && r.error.IncorrectHeight?
    ensures r.Err? && r.error.IncorrectHeight? ==> r.error.found != r.error.expected && r.error.expected > 0
    ensures r.Err? && r.error.IncorrectHeight? ==>
      exists i :: 0 <= i < |lines| && FirstHeightBreak(lines, i) &&
        r.error == IncorrectHeight(|lines[i].colors|, FirstHeight(lines[..i]))
    ensures HeightsConsistent(lines) ==>
      r == if CountEmpty(lines) != 2 then Err(WrongEmptyCount(CountEmpty(lines)))
           else if |ColourSet(lines)| + 2 != |PolesOf(lines)| then
             Err(ColourMismatch(|ColourSet(lines)|, 2, |PolesOf(lines)|))
           else Ok(GameState(FirstHeight(lines), PolesOf(lines), 0, None))
  {
    var maxHeight: nat := 0;
    var numEmptyPoles: nat := 0;
    var colors: seq<Color> := [];
    var list: seq<Pole> := [];
    for idx := 0 to |lines|
      invariant maxHeight == FirstHeight(lines[..idx])
      invariant numEmptyPoles == CountEmpty(lines[..idx])
      invariant list == PolesOf(lines[..idx])
      invariant Elems(colors) == ColourSet(lines[..idx])
      invariant |colors| == |ColourSet(lines[..idx])|
      invariant HeightsConsistent(lines[..idx])
    {
      var line := lines[idx];
      assert lines[..idx + 1][..idx] == lines[..idx];
      if IsEmptyLine(line.text) {
        list := list + [Pole([])];
        numEmptyPoles := numEmptyPoles + 1;
      } else if !IsComment(line.text) {
        var pole := line.colors;
        colors := AddColours(colors, pole);
        assert ColourSet(lines[..idx + 1]) == ColourSet(lines[..idx]) + Elems(pole);
        if maxHeight == 0 {
          maxHeight := |pole|;
        } else if maxHeight != |pole| {
          assert !HeightsConsistent(lines) by {
            assert lines[..idx] == lines[..idx];
          }
          assert FirstHeightBreak(lines, idx);
          return Err(IncorrectHeight(|pole|, maxHeight));
        }
        list := list + [Pole(pole)];
      }
      HeightsStep(lines, idx);
    }
    assert lines[..|lines|] == lines;
    if numEmptyPoles != 2 {
      return Err(WrongEmptyCount(numEmptyPoles));
    }
    if |colors| + numEmptyPoles != |list| {
      return Err(ColourMismatch(|colors|, numEmptyPoles, |list|));
    }
    return Ok(GameState(maxHeight, list, 0, None));
  }

  /** The inner loop of Load: appends each colour not yet listed. */
  method AddColours(colors0: seq<Color>, pole: seq<Color>) returns (colors: seq<Color>)
    requires |colors0| == |Elems(colors0)|
    ensures Elems(colors) == Elems(colors0) + Elems(pole)
    ensures |colors| == |Elems(colors)|
  {
    colors := colors0;
    for j := 0 to |pole|
      invariant Elems(colors) == Elems(colors0) + Elems(pole[..j])
      invariant |colors| == |Elems(colors)|
    {
      var color := pole[j];
      assert pole[..j + 1][..j] == pole[..j];
      ElemsMember(colors, color);
      if color !in colors {
        assert (colors + [color])[..|colors|] == colors;
        colors := colors + [color];
      }
    }
    assert pole[..|pole|] == pole;
  }

  lemma HeightsStep(lines: seq<Line>, idx: nat)
    requires idx < |lines|
    requires HeightsConsistent(lines[..idx])
    requires IsColourLine(lines[idx]) && FirstHeight(lines[..idx]) != 0 ==>
      |lines[idx].colors| == FirstHeight(lines[..idx])
    ensures HeightsConsistent(lines[..idx + 1])
  {
    var pre := lines[..idx + 1];
    forall i | 0 <= i < |pre| && IsColourLine(pre[i]) && FirstHeight(pre[..i]) != 0
      ensures |pre[i].colors| == FirstHeight(pre[..i])
    {
      assert pre[..i] == lines[..i];
      if i < idx {
        assert lines[..idx][i] == lines[i] && lines[..idx][..i] == lines[..i];
      }
    }
  }

  /** Once a prefix has fixed the height, later lines never change it. */
  lemma {:induction false} FirstHeightStable(lines: seq<Line>, i: nat)
    requires i <= |lines| && FirstHeight(lines[..i]) != 0
    ensures FirstHeight(lines) == FirstHeight(lines[..i])
    decreases |lines| - i
  {
    if i == |lines| {
      assert lines[..i] == lines;
    } else {
      var pre := lines[..|lines| - 1];
      assert pre[..i] == lines[..i];
      FirstHeightStable(pre, i);
    }
  }

  /** When every colour line has at least one token (splitting at ", "
      always gives one, a blank line giving the empty token), the
      incremental height check of Load in GameState.cs is the same as asking
      every colour line to have the height of the first. */
  lemma HeightsMatchFirst(lines: seq<Line>)
    requires forall i :: 0 <= i < |lines| && IsColourLine(lines[i]) ==> |lines[i].colors| > 0
    ensures HeightsConsistent(lines) <==>
      forall i :: 0 <= i < |lines| && IsColourLine(lines[i]) ==> |lines[i].colors| == FirstHeight(lines)
  {
    if HeightsConsistent(lines) {
      forall i | 0 <= i < |lines| && IsColourLine(lines[i])
        ensures |lines[i].colors| == FirstHeight(lines)
      {
        if FirstHeight(lines[..i]) != 0 {
          FirstHeightStable(lines, i);
        } else {
          assert lines[..i + 1][..i] == lines[..i];
          FirstHeightStable(lines, i + 1);
        }
      }
    }
    if forall i :: 0 <= i < |lines| && IsColourLine(lines[i]) ==> |lines[i].colors| == FirstHeight(lines) {
      forall i | 0 <= i < |lines| && IsColourLine(lines[i]) && FirstHeight(lines[..i]) != 0
        ensures |lines[i].colors| == FirstHeight(lines[..i])
      {
        FirstHeightStable(lines, i);
      }
    }
  }

  /** Every pole a consistent file describes is empty or exactly the board
      height tall. */
  lemma {:induction false} LoadedPoleHeights(lines: seq<Line>)
    requires HeightsConsistent(lines)
    ensures forall p :: p in PolesOf(lines) ==> |p.hoops| == 0 || |p.hoops| == FirstHeight(lines)
  {
    if |lines| > 0 {
      var n := |lines| - 1;
      var pre := lines[..n];
      assert HeightsConsistent(pre) by {
        forall i | 0 <= i < |pre| && IsColourLine(pre[i]) && FirstHeight(pre[..i]) != 0
          ensures |pre[i].colors| == FirstHeight(pre[..i])
        {
          assert pre[..i] == lines[..i];
        }
      }
      LoadedPoleHeights(pre);
      if FirstHeight(pre) != 0 {
        FirstHeightStable(lines, n);
      }
    }
  }

  /** The board Load returns on success has every pole empty or full. */
  lemma LoadedBoardHeights(lines: seq<Line>, g: GameState)
    requires HeightsConsistent(lines)
    requires g == GameState(FirstHeight(lines), PolesOf(lines), 0, None)
    ensures forall i :: 0 <= i < |g.poles| ==> |g.poles[i].hoops| == 0 || |g.poles[i].hoops| == g.maxPoleHeight
    ensures g.movesTaken == 0 && g.lastMove == None
  {
    LoadedPoleHeights(lines);
    forall i | 0 <= i < |g.poles|
      ensures |g.poles[i].hoops| == 0 || |g.poles[i].hoops| == g.maxPoleHeight
    {
      assert g.poles[i] in PolesOf(lines);
    }
  }
}
