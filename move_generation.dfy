/** The legal-move generator of a game state: the batched transfer of the
    source pole's top run onto a destination, and the enumeration of every
    (source, destination) pair the solver tries. */
module MoveGeneration {
  import opened Wrappers
  import opened PoleState
  import opened Game
  import opened Moves

  // ---------------------------------------------------------------- batched transfer

  /** The length of the run of colour `c` at the top of `h`. */
  function RunLength(h: seq<Color>, c: Color): (n: nat)
    ensures n <= |h|
  {
    if |h| == 0 || h[|h| - 1] != c then 0 else RunLength(h[..|h| - 1], c) + 1
  }

  /** The run is all of colour `c` and maximal: the hoop below it, if any,
      is of another colour. */
  lemma {:induction false} RunLengthFacts(h: seq<Color>, c: Color)
    ensures forall i :: |h| - RunLength(h, c) <= i < |h| ==> h[i] == c
    ensures RunLength(h, c) < |h| ==> h[|h| - 1 - RunLength(h, c)] != c
  {
    if |h| > 0 && h[|h| - 1] == c {
      var h' := h[..|h| - 1];
      RunLengthFacts(h', c);
      forall i | |h| - RunLength(h, c) <= i < |h| ensures h[i] == c {
        if i < |h| - 1 {
          assert h[i] == h'[i];
        }
      }
      if RunLength(h, c) < |h| {
        assert h[|h| - 1 - RunLength(h, c)] == h'[|h'| - 1 - RunLength(h', c)];
      }
    }
  }

  lemma {:induction false} RunLengthPrefix(h: seq<Color>, c: Color, n: nat)
    requires n <= RunLength(h, c)
    ensures RunLength(h[..|h| - n], c) == RunLength(h, c) - n
  {
    if n > 0 {
      var h' := h[..|h| - 1];
      assert h[|h| - 1] == c;
      RunLengthPrefix(h', c, n - 1);
      assert h'[..|h'| - (n - 1)] == h[..|h| - n];
    } else {
      assert h[..|h|] == h;
    }
  }

  /** `k` hoops of colour `c`. */
  function Repeat(c: Color, k: nat): seq<Color>
  {
    if k == 0 then [] else Repeat(c, k - 1) + [c]
  }

  lemma {:induction false} RepeatFacts(c: Color, k: nat)
    ensures |Repeat(c, k)| == k && forall i :: 0 <= i < k ==> Repeat(c, k)[i] == c
  {
    if k > 0 {
      RepeatFacts(c, k - 1);
    }
  }

  /** How many hoops of colour `c` go from `src` onto `dst`: the whole top run,
      or as many as fit below `maxPoleHeight`. */
  function MovedCount(src: seq<Color>, dst: seq<Color>, c: Color, maxPoleHeight: nat): (k: nat)
    ensures k <= RunLength(src, c)
    ensures |dst| < maxPoleHeight ==> |dst| + k <= maxPoleHeight
    ensures |dst| >= maxPoleHeight ==> k == 0
    ensures k == RunLength(src, c) || |dst| + k >= maxPoleHeight
    ensures |dst| < maxPoleHeight && RunLength(src, c) > 0 ==> k >= 1
  {
    if |dst| >= maxPoleHeight then 0
    else if RunLength(src, c) <= maxPoleHeight - |dst| then RunLength(src, c)
    else maxPoleHeight - |dst|
  }

  /** The move from pole `from` to pole `to`: the new state has the moved
      hoops taken off the source pole and put on the destination pole, one more move
      taken, and a back-link to this move. */
  function Moved(s: GameState, from: nat, to: nat): (m: PotentialMove)
    requires from < |s.poles| && to < |s.poles| && from != to
    requires !IsEmpty(s.poles[from])
    ensures m.oldState == s && m.move.from == from && m.move.to == to
  {
    var c := TopColor(s.poles[from]).value;
    var src, dst := s.poles[from].hoops, s.poles[to].hoops;
    var k := MovedCount(src, dst, c, s.maxPoleHeight);
    var board := GameState(s.maxPoleHeight, s.poles[from := Pole(src[..|src| - k])][to := Pole(dst + Repeat(c, k))],
                           s.movesTaken + 1, None);
    var desc := MoveDesc(k, c, from, to);
    var m := NewPotentialMove(s, board, desc);
    PotentialMove(s, board.(lastMove := Some(MoveLink(s, desc, m.score))), desc, m.score)
  }

  /** The batched transfer: k hoops, all of the source pole's top colour, leave
      the top of the source pole and land on the destination; at least one moves
      when the destination is not full; the transfer stops only when the
      source top changes colour or the destination is full, which it never
      overfills; nothing else changes but the move count, which grows by one
      however many hoops moved, and the new state links back to the move. */
  lemma MovedFacts(s: GameState, from: nat, to: nat)
    requires from < |s.poles| && to < |s.poles| && from != to
    requires !IsEmpty(s.poles[from])
    ensures var m := Moved(s, from, to);
            && Linked(m)
            && m.move.color == TopColor(s.poles[from]).value
            && m.newState.maxPoleHeight == s.maxPoleHeight
            && m.newState.movesTaken == s.movesTaken + 1
            && m.score == ScoreOf(m.newState)
            && |m.newState.poles| == |s.poles|
            && (forall i :: 0 <= i < |s.poles| && i != from && i != to ==> m.newState.poles[i] == s.poles[i])
    ensures var m := Moved(s, from, to);
            var k, c := m.move.count, m.move.color;
            var src, dst := s.poles[from].hoops, s.poles[to].hoops;
            var src', dst' := m.newState.poles[from].hoops, m.newState.poles[to].hoops;
            && k <= |src|
            && src == src' + Repeat(c, k)
            && dst' == dst + Repeat(c, k)
            && (|dst| < s.maxPoleHeight ==> k >= 1)
            && (|dst| <= s.maxPoleHeight ==> |dst'| <= s.maxPoleHeight)
            && (TopColor(Pole(src')) != Some(c) || |dst'| >= s.maxPoleHeight)
  {
    MovedHoops(s, from, to);
  }

  lemma MovedHoops(s: GameState, from: nat, to: nat)
    requires from < |s.poles| && to < |s.poles| && from != to
    requires !IsEmpty(s.poles[from])
    ensures var m := Moved(s, from, to);
            var k, c := m.move.count, m.move.color;
            var src, dst := s.poles[from].hoops, s.poles[to].hoops;
            var src', dst' := m.newState.poles[from].hoops, m.newState.poles[to].hoops;
            && k <= |src|
            && src == src' + Repeat(c, k)
            && dst' == dst + Repeat(c, k)
            && (|dst| < s.maxPoleHeight ==> k >= 1)
            && (|dst| <= s.maxPoleHeight ==> |dst'| <= s.maxPoleHeight)
            && (TopColor(Pole(src')) != Some(c) || |dst'| >= s.maxPoleHeight)
  {
    var c := TopColor(s.poles[from]).value;
    var src, dst := s.poles[from].hoops, s.poles[to].hoops;
    var k := MovedCount(src, dst, c, s.maxPoleHeight);
    MovedCountFacts(src, dst, c, s.maxPoleHeight);
    var m := Moved(s, from, to);
    assert m.move.count == k && m.move.color == c;
    assert m.newState.poles[from].hoops == src[..|src| - k];
    assert m.newState.poles[to].hoops == dst + Repeat(c, k);
  }

  /** The hoops `MovedCount` picks are the top `k` of the source, all of
      colour `c`, and either the whole run or enough to fill the destination. */
  lemma MovedCountFacts(src: seq<Color>, dst: seq<Color>, c: Color, maxPoleHeight: nat)
    requires TopColor(Pole(src)) == Some(c)
    ensures var k := MovedCount(src, dst, c, maxPoleHeight);
            && k <= |src|
            && |Repeat(c, k)| == k
            && src == src[..|src| - k] + Repeat(c, k)
            && (TopColor(Pole(src[..|src| - k])) != Some(c) || |dst| + k >= maxPoleHeight)
  {
    var k := MovedCount(src, dst, c, maxPoleHeight);
    RunLengthFacts(src, c);
    RepeatFacts(c, k);
    assert src == src[..|src| - k] + Repeat(c, k);
    RunLengthPrefix(src, c, k);
  }

  /** A move neither creates nor destroys a hoop: the two poles together
      hold the same colours, and so do all the poles. */
  lemma MoveConservesColours(s: GameState, from: nat, to: nat)
    requires from < |s.poles| && to < |s.poles| && from != to
    requires !IsEmpty(s.poles[from])
    ensures var n := Moved(s, from, to).newState;
            multiset(n.poles[from].hoops) + multiset(n.poles[to].hoops) ==
            multiset(s.poles[from].hoops) + multiset(s.poles[to].hoops)
    ensures Colours(Moved(s, from, to).newState.poles) == Colours(s.poles)
  {
    MovedFacts(s, from, to);
    var m := Moved(s, from, to);
    var n := m.newState;
    var c, k := m.move.color, m.move.count;
    var r := multiset(Repeat(c, k));
    assert multiset(s.poles[from].hoops) == multiset(n.poles[from].hoops) + r;
    assert multiset(n.poles[to].hoops) == multiset(s.poles[to].hoops) + r;
    assert n.poles == s.poles[from := n.poles[from]][to := n.poles[to]];
    TwoPolesUpdate(s.poles, from, to, n.poles[from], n.poles[to]);
  }

  /** Replacing two poles by two holding the same hoops between them keeps
      the colour total. */
  lemma TwoPolesUpdate(ps: seq<Pole>, from: nat, to: nat, a: Pole, b: Pole)
    requires from < |ps| && to < |ps| && from != to
    requires multiset(a.hoops) + multiset(b.hoops) == multiset(ps[from].hoops) + multiset(ps[to].hoops)
    ensures Colours(ps[from := a][to := b]) == Colours(ps)
  {
    var mid := ps[from := a];
    ColoursUpdate(ps, from, a);
    ColoursUpdate(mid, to, b);
    assert mid[to] == ps[to];
    forall y ensures Colours(mid[to := b])[y] == Colours(ps)[y] {
      assert (Colours(mid) + multiset(ps[from].hoops))[y] == (Colours(ps) + multiset(a.hoops))[y];
      assert (Colours(mid[to := b]) + multiset(ps[to].hoops))[y] == (Colours(mid) + multiset(b.hoops))[y];
      assert (multiset(a.hoops) + multiset(b.hoops))[y] == (multiset(ps[from].hoops) + multiset(ps[to].hoops))[y];
    }
  }

  /** Every pole at most `maxPoleHeight` high. */
  ghost predicate WithinHeight(s: GameState)
  {
    forall i :: 0 <= i < |s.poles| ==> |s.poles[i].hoops| <= s.maxPoleHeight
  }

  lemma MovePreservesHeight(s: GameState, from: nat, to: nat)
    requires from < |s.poles| && to < |s.poles| && from != to
    requires !IsEmpty(s.poles[from])
    requires WithinHeight(s)
    ensures WithinHeight(Moved(s, from, to).newState)
  {
    MovedFacts(s, from, to);
    var n := Moved(s, from, to).newState;
    assert |n.poles[from].hoops| <= |s.poles[from].hoops|;
  }

  /** The transfer loop of GenerateMove in GameState.cs: take hoops off the
      copy of the source pole and add them to the copy of the destination
      pole while the source pole's top is the moved colour and the
      destination pole is below full height. */
  method Transfer(src0: seq<Color>, dst0: seq<Color>, c: Color, maxPoleHeight: nat)
    returns (src: seq<Color>, dst: seq<Color>, numHoopsMoved: nat)
    ensures numHoopsMoved == MovedCount(src0, dst0, c, maxPoleHeight)
    ensures src == src0[..|src0| - numHoopsMoved]
    ensures dst == dst0 + Repeat(c, numHoopsMoved)
  {
    src, dst := src0, dst0;
    numHoopsMoved := 0;
    while TopColor(Pole(src)) == Some(c) && |dst| < maxPoleHeight
      invariant numHoopsMoved <= RunLength(src0, c)
      invariant src == src0[..|src0| - numHoopsMoved]
      invariant dst == dst0 + Repeat(c, numHoopsMoved)
      invariant |dst| == |dst0| + numHoopsMoved
      invariant numHoopsMoved == 0 || |dst| <= maxPoleHeight
      decreases |src|
    {
      RunLengthPrefix(src0, c, numHoopsMoved);
      assert src[..|src| - 1] == src0[..|src0| - (numHoopsMoved + 1)];
      RepeatAppend(dst0, c, numHoopsMoved);
      src := src[..|src| - 1];
      dst := dst + [c];
      numHoopsMoved := numHoopsMoved + 1;
    }
    TransferStops(src0, dst0, c, maxPoleHeight, numHoopsMoved);
  }

  lemma RepeatAppend(d: seq<Color>, c: Color, n: nat)
    ensures d + Repeat(c, n + 1) == (d + Repeat(c, n)) + [c]
  {
    assert Repeat(c, n + 1) == Repeat(c, n) + [c];
  }

  /** Where the transfer loop stops is where `MovedCount` says. */
  lemma TransferStops(src0: seq<Color>, dst0: seq<Color>, c: Color, maxPoleHeight: nat, n: nat)
    requires n <= RunLength(src0, c)
    requires n == 0 || |dst0| + n <= maxPoleHeight
    requires TopColor(Pole(src0[..|src0| - n])) != Some(c) || |dst0| + n >= maxPoleHeight
    ensures n == MovedCount(src0, dst0, c, maxPoleHeight)
  {
    RunLengthPrefix(src0, c, n);
  }

  /** GenerateMove in GameState.cs: copy the two poles, transfer, and build the
      new state and the move that links back to it. */
  method GenerateMove(s: GameState, from: nat, to: nat) returns (m: PotentialMove)
    requires from < |s.poles| && to < |s.poles| && from != to
    requires !IsEmpty(s.poles[from])
    ensures m == Moved(s, from, to)
  {
    var color := TopColor(s.poles[from]);
    var c := color.value;
    var src, dst, numHoopsMoved := Transfer(s.poles[from].hoops, s.poles[to].hoops, c, s.maxPoleHeight);
    var newState := GameState(s.maxPoleHeight, s.poles[from := Pole(src)][to := Pole(dst)], s.movesTaken + 1, None);
    var desc := MoveDesc(numHoopsMoved, c, from, to);
    m := NewPotentialMove(s, newState, desc);
    newState := newState.(lastMove := Some(MoveLink(s, desc, m.score)));
    m := m.(newState := newState);
  }

  // ---------------------------------------------------------------- enumeration

  /** The index of the last empty pole, or -1 when no pole is empty: the
      first scan keeps only the last one it sees. */
  function LastEmpty(ps: seq<Pole>): (r: int)
    ensures -1 <= r < |ps|
    ensures r >= 0 ==> IsEmpty(ps[r])
    ensures forall j :: r < j < |ps| ==> !IsEmpty(ps[j])
  {
    if |ps| == 0 then -1
    else if IsEmpty(ps[|ps| - 1]) then |ps| - 1
    else LastEmpty(ps[..|ps| - 1])
  }

  /** The "available spaces" of the first scan: every non-empty pole whose
      height is not `maxPoleHeight`, with its top colour, in increasing pole
      order. */
  function Spaces(ps: seq<Pole>, maxPoleHeight: nat): (r: seq<(nat, Color)>)
    ensures SpacesValid(ps, maxPoleHeight, r)
    ensures forall k, l :: 0 <= k < l < |r| ==> r[k].0 < r[l].0
  {
    if |ps| == 0 then []
    else
      var n := |ps| - 1;
      var p := ps[n];
      var rest := Spaces(ps[..n], maxPoleHeight);
      assert forall k :: 0 <= k < |rest| ==> ps[rest[k].0] == ps[..n][rest[k].0];
      if !IsEmpty(p) && |p.hoops| != maxPoleHeight then rest + [(n, TopColor(p).value)] else rest
  }

  /** Every non-empty pole not at full height is among the spaces. */
  lemma {:induction false} SpacesComplete(ps: seq<Pole>, maxPoleHeight: nat, j: nat)
    requires j < |ps| && !IsEmpty(ps[j]) && |ps[j].hoops| != maxPoleHeight
    ensures exists k :: 0 <= k < |Spaces(ps, maxPoleHeight)| && Spaces(ps, maxPoleHeight)[k].0 == j
  {
    var n := |ps| - 1;
    var sp := Spaces(ps, maxPoleHeight);
    if j == n {
      assert sp[|sp| - 1].0 == j;
    } else {
      SpacesComplete(ps[..n], maxPoleHeight, j);
      var rest := Spaces(ps[..n], maxPoleHeight);
      var k :| 0 <= k < |rest| && rest[k].0 == j;
      assert sp[k] == rest[k];
    }
  }

  ghost predicate SpacesValid(ps: seq<Pole>, maxPoleHeight: nat, sp: seq<(nat, Color)>)
  {
    forall k :: 0 <= k < |sp| ==>
      sp[k].0 < |ps| && !IsEmpty(ps[sp[k].0]) && |ps[sp[k].0].hoops| != maxPoleHeight &&
      TopColor(ps[sp[k].0]) == Some(sp[k].1)
  }

  /** A (source, destination) pair the transfer accepts. */
  predicate ValidPair(s: GameState, p: (nat, nat))
  {
    p.0 < |s.poles| && p.1 < |s.poles| && p.0 != p.1 && !IsEmpty(s.poles[p.0])
  }

  /** The pairs from pole `i`, whose top colour is `top`, onto the spaces of
      `sp` other than `i` that have the same top colour, in the order of `sp`. */
  function MatchPairs(i: nat, top: Option<Color>, sp: seq<(nat, Color)>): seq<(nat, nat)>
  {
    if |sp| == 0 then []
    else
      var n := |sp| - 1;
      MatchPairs(i, top, sp[..n]) + (if sp[n].0 != i && Some(sp[n].1) == top then [(i, sp[n].0)] else [])
  }

  /** The pairs from pole `i`: onto the kept empty pole `empty` first (none
      when it is -1), then onto the matching spaces. */
  function PairsFrom(i: nat, top: Option<Color>, empty: int, sp: seq<(nat, Color)>): seq<(nat, nat)>
  {
    (if empty > -1 then [(i, empty as nat)] else []) + MatchPairs(i, top, sp)
  }

  /** The pairs from the non-empty poles of `ps`, in pole order. */
  function AllPairs(ps: seq<Pole>, empty: int, sp: seq<(nat, Color)>): seq<(nat, nat)>
  {
    if |ps| == 0 then []
    else
      var n := |ps| - 1;
      AllPairs(ps[..n], empty, sp) + (if !IsEmpty(ps[n]) then PairsFrom(n, TopColor(ps[n]), empty, sp) else [])
  }

  /** The pairs the generator tries for `s`. */
  function AvailablePairs(s: GameState): seq<(nat, nat)>
  {
    AllPairs(s.poles, LastEmpty(s.poles), Spaces(s.poles, s.maxPoleHeight))
  }

  /** The move of each pair, in order; a pair the transfer does not accept
      (the generator never lists one) contributes no move. */
  function MovesOf(s: GameState, ps: seq<(nat, nat)>): seq<PotentialMove>
  {
    if |ps| == 0 then []
    else
      var n := |ps| - 1;
      MovesOf(s, ps[..n]) + (if ValidPair(s, ps[n]) then [Moved(s, ps[n].0, ps[n].1)] else [])
  }

  /** Every move the state offers, in the order ListAvailableMoves in GameState.cs lists them. */
  function AvailableMoves(s: GameState): seq<PotentialMove>
  {
    MovesOf(s, AvailablePairs(s))
  }

  lemma {:induction false} MovesOfAppend(s: GameState, a: seq<(nat, nat)>, b: seq<(nat, nat)>)
    ensures MovesOf(s, a + b) == MovesOf(s, a) + MovesOf(s, b)
  {
    if |b| == 0 {
      assert a + b == a;
    } else {
      var n := |b| - 1;
      assert (a + b)[..|a + b| - 1] == a + b[..n];
      MovesOfAppend(s, a, b[..n]);
    }
  }

  lemma {:induction false} MovesOfSound(s: GameState, ps: seq<(nat, nat)>, m: PotentialMove)
    requires m in MovesOf(s, ps)
    ensures (m.move.from, m.move.to) in ps && ValidPair(s, (m.move.from, m.move.to))
    ensures m == Moved(s, m.move.from, m.move.to)
  {
    var n := |ps| - 1;
    if m in MovesOf(s, ps[..n]) {
      MovesOfSound(s, ps[..n], m);
      assert (m.move.from, m.move.to) in ps[..n];
    } else {
      assert m == Moved(s, ps[n].0, ps[n].1);
      assert (m.move.from, m.move.to) == ps[n];
    }
  }

  lemma {:induction false} MovesOfComplete(s: GameState, ps: seq<(nat, nat)>, from: nat, to: nat)
    requires ValidPair(s, (from, to)) && (from, to) in ps
    ensures Moved(s, from, to) in MovesOf(s, ps)
  {
    var n := |ps| - 1;
    if ps[n] != (from, to) {
      assert (from, to) in ps[..n];
      MovesOfComplete(s, ps[..n], from, to);
    }
  }

  /** The first scan of ListAvailableMoves in GameState.cs: the last empty pole and the available spaces. */
  method ClassifyPoles(s: GameState) returns (emptyHoop: int, availableSpaces: seq<(nat, Color)>)
    ensures emptyHoop == LastEmpty(s.poles)
    ensures availableSpaces == Spaces(s.poles, s.maxPoleHeight)
  {
    availableSpaces := [];
    emptyHoop := -1;
    for i := 0 to |s.poles|
      invariant emptyHoop == LastEmpty(s.poles[..i])
      invariant availableSpaces == Spaces(s.poles[..i], s.maxPoleHeight)
    {
      assert s.poles[..i + 1][..i] == s.poles[..i];
      if IsEmpty(s.poles[i]) {
        emptyHoop := i;
      } else if |s.poles[i].hoops| != s.maxPoleHeight {
        var color := TopColor(s.poles[i]);
        if color != None {
          availableSpaces := availableSpaces + [(i, color.value)];
        }
      }
    }
    assert s.poles[..|s.poles|] == s.poles;
  }

  /** The second scan of ListAvailableMoves in GameState.cs, for one
      non-empty pole `i`: the move onto the kept empty pole, then one onto
      every other space of the same top colour. */
  method GenerateMovesFrom(s: GameState, i: nat, emptyHoop: int, availableSpaces: seq<(nat, Color)>)
    returns (moves: seq<PotentialMove>)
    requires i < |s.poles| && !IsEmpty(s.poles[i])
    requires emptyHoop == -1 || (0 <= emptyHoop < |s.poles| && IsEmpty(s.poles[emptyHoop]))
    requires forall k :: 0 <= k < |availableSpaces| ==> availableSpaces[k].0 < |s.poles|
    ensures moves == MovesOf(s, PairsFrom(i, TopColor(s.poles[i]), emptyHoop, availableSpaces))
  {
    var color := TopColor(s.poles[i]);
    ghost var first: seq<(nat, nat)> := if emptyHoop > -1 then [(i, emptyHoop as nat)] else [];
    moves := [];
    if emptyHoop > -1 {
      var m := GenerateMove(s, i, emptyHoop);
      moves := moves + [m];
      assert first[..0] == [];
    }
    assert first + MatchPairs(i, color, availableSpaces[..0]) == first;
    for j := 0 to |availableSpaces|
      invariant moves == MovesOf(s, first + MatchPairs(i, color, availableSpaces[..j]))
    {
      MatchPairsStep(s, first, i, color, availableSpaces, j);
      var poleNum := availableSpaces[j].0;
      if poleNum != i && Some(availableSpaces[j].1) == color {
        var m := GenerateMove(s, i, poleNum);
        moves := moves + [m];
      }
    }
    assert availableSpaces[..|availableSpaces|] == availableSpaces;
  }

  /** One space more: the pair onto it, when it matches, adds its move. */
  lemma MatchPairsStep(s: GameState, first: seq<(nat, nat)>, i: nat, top: Option<Color>, sp: seq<(nat, Color)>, j: nat)
    requires j < |sp|
    ensures MovesOf(s, first + MatchPairs(i, top, sp[..j + 1])) ==
            MovesOf(s, first + MatchPairs(i, top, sp[..j])) +
            (if sp[j].0 != i && Some(sp[j].1) == top && ValidPair(s, (i, sp[j].0)) then [Moved(s, i, sp[j].0)] else [])
  {
    var prefix := sp[..j + 1];
    assert prefix[..j] == sp[..j];
    var step: seq<(nat, nat)> := if sp[j].0 != i && Some(sp[j].1) == top then [(i, sp[j].0)] else [];
    assert MatchPairs(i, top, prefix) == MatchPairs(i, top, sp[..j]) + step;
    assert first + (MatchPairs(i, top, sp[..j]) + step) == (first + MatchPairs(i, top, sp[..j])) + step;
    MovesOfAppend(s, first + MatchPairs(i, top, sp[..j]), step);
    if step != [] {
      assert step[..0] == [];
    }
  }

  /** ListAvailableMoves in GameState.cs: classify the poles, then generate the
      moves of every non-empty pole (finished ones included). */
  method ListAvailableMoves(s: GameState) returns (moves: seq<PotentialMove>)
    ensures moves == AvailableMoves(s)
  {
    var emptyHoop, availableSpaces := ClassifyPoles(s);
    moves := GenerateAllMoves(s, emptyHoop, availableSpaces);
  }

  /** The second scan over every pole. */
  method GenerateAllMoves(s: GameState, emptyHoop: int, availableSpaces: seq<(nat, Color)>)
    returns (moves: seq<PotentialMove>)
    requires emptyHoop == -1 || (0 <= emptyHoop < |s.poles| && IsEmpty(s.poles[emptyHoop]))
    requires forall k :: 0 <= k < |availableSpaces| ==> availableSpaces[k].0 < |s.poles|
    ensures moves == MovesOf(s, AllPairs(s.poles, emptyHoop, availableSpaces))
  {
    moves := [];
    for i := 0 to |s.poles|
      invariant moves == MovesOf(s, AllPairs(s.poles[..i], emptyHoop, availableSpaces))
    {
      AllPairsStep(s, s.poles, emptyHoop, availableSpaces, i);
      if !IsEmpty(s.poles[i]) {
        var fromPole := GenerateMovesFrom(s, i, emptyHoop, availableSpaces);
        moves := moves + fromPole;
      }
    }
    assert s.poles[..|s.poles|] == s.poles;
  }

  /** One more source pole adds exactly the moves from that pole. */
  lemma AllPairsStep(s: GameState, ps: seq<Pole>, empty: int, sp: seq<(nat, Color)>, i: nat)
    requires i < |ps|
    ensures MovesOf(s, AllPairs(ps[..i + 1], empty, sp)) ==
      MovesOf(s, AllPairs(ps[..i], empty, sp)) +
      (if !IsEmpty(ps[i]) then MovesOf(s, PairsFrom(i, TopColor(ps[i]), empty, sp)) else [])
  {
    assert ps[..i + 1][..i] == ps[..i];
    var here := if !IsEmpty(ps[i]) then PairsFrom(i, TopColor(ps[i]), empty, sp) else [];
    assert AllPairs(ps[..i + 1], empty, sp) == AllPairs(ps[..i], empty, sp) + here;
    MovesOfAppend(s, AllPairs(ps[..i], empty, sp), here);
  }

  // ---------------------------------------------------------------- properties of the generator

  /** A pair the generator uses: a non-empty source, and as destination either
      the last empty pole or another non-empty pole, not at full height, whose
      top colour is the source's. */
  ghost predicate LegalMove(s: GameState, from: nat, to: nat)
  {
    from < |s.poles| && to < |s.poles| && from != to && !IsEmpty(s.poles[from]) &&
    (to == LastEmpty(s.poles) ||
     (!IsEmpty(s.poles[to]) && |s.poles[to].hoops| != s.maxPoleHeight &&
      TopColor(s.poles[to]) == TopColor(s.poles[from])))
  }

  lemma {:induction false} MatchPairsSound(i: nat, top: Option<Color>, sp: seq<(nat, Color)>, p: (nat, nat))
    requires p in MatchPairs(i, top, sp)
    ensures p.0 == i && p.1 != i && top.Some? && (p.1, top.value) in sp
  {
    var n := |sp| - 1;
    if p in MatchPairs(i, top, sp[..n]) {
      MatchPairsSound(i, top, sp[..n], p);
      assert (p.1, top.value) in sp[..n];
    } else {
      assert sp[n] == (p.1, top.value);
    }
  }

  lemma {:induction false} MatchPairsComplete(i: nat, top: Option<Color>, sp: seq<(nat, Color)>, k: nat)
    requires k < |sp| && sp[k].0 != i && Some(sp[k].1) == top
    ensures (i, sp[k].0) in MatchPairs(i, top, sp)
  {
    var n := |sp| - 1;
    if k < n {
      MatchPairsComplete(i, top, sp[..n], k);
      assert sp[..n][k] == sp[k];
    }
  }

  /** Every pair of `AllPairs` starts at a non-empty pole and ends at `empty`
      or at another pole listed among the spaces with the source's top colour. */
  lemma {:induction false} AllPairsSound(ps: seq<Pole>, empty: int, sp: seq<(nat, Color)>, p: (nat, nat))
    requires p in AllPairs(ps, empty, sp)
    ensures p.0 < |ps| && !IsEmpty(ps[p.0])
    ensures p.1 == empty || (p.1 != p.0 && (p.1, TopColor(ps[p.0]).value) in sp)
  {
    var n := |ps| - 1;
    var rest := AllPairs(ps[..n], empty, sp);
    if p in rest {
      AllPairsSound(ps[..n], empty, sp, p);
      assert ps[..n][p.0] == ps[p.0];
    } else {
      var top := TopColor(ps[n]);
      assert !IsEmpty(ps[n]) && p in PairsFrom(n, top, empty, sp);
      if p !in MatchPairs(n, top, sp) {
        assert p == (n, empty as nat);
      } else {
        MatchPairsSound(n, top, sp, p);
      }
    }
  }

  /** Every such pair is among `AllPairs`. */
  lemma {:induction false} AllPairsComplete(ps: seq<Pole>, empty: int, sp: seq<(nat, Color)>, from: nat, to: nat)
    requires from < |ps| && !IsEmpty(ps[from])
    requires to == empty || (to != from && (to, TopColor(ps[from]).value) in sp)
    ensures (from, to) in AllPairs(ps, empty, sp)
  {
    var n := |ps| - 1;
    var rest := AllPairs(ps[..n], empty, sp);
    if from < n {
      assert ps[..n][from] == ps[from];
      AllPairsComplete(ps[..n], empty, sp, from, to);
      assert (from, to) in rest;
    } else {
      var top := TopColor(ps[n]);
      var here := PairsFrom(n, top, empty, sp);
      if to == empty {
        assert here[0] == (from, to);
      } else {
        var k :| 0 <= k < |sp| && sp[k] == (to, top.value);
        MatchPairsComplete(n, top, sp, k);
        assert (from, to) in MatchPairs(n, top, sp);
      }
      assert (from, to) in here;
    }
  }

  /** Soundness: every listed move is the transfer of a legal pair, so no move
      goes from a pole to itself and every source is non-empty. */
  lemma AvailableMovesSound(s: GameState, m: PotentialMove)
    requires m in AvailableMoves(s)
    ensures LegalMove(s, m.move.from, m.move.to)
    ensures m == Moved(s, m.move.from, m.move.to)
  {
    var sp := Spaces(s.poles, s.maxPoleHeight);
    var p := (m.move.from, m.move.to);
    MovesOfSound(s, AvailablePairs(s), m);
    AllPairsSound(s.poles, LastEmpty(s.poles), sp, p);
    if p.1 != LastEmpty(s.poles) {
      var k :| 0 <= k < |sp| && sp[k] == (p.1, TopColor(s.poles[p.0]).value);
    }
  }

  /** Completeness: the transfer of every legal pair is listed. */
  lemma AvailableMovesComplete(s: GameState, from: nat, to: nat)
    requires LegalMove(s, from, to)
    ensures Moved(s, from, to) in AvailableMoves(s)
  {
    var sp := Spaces(s.poles, s.maxPoleHeight);
    if to != LastEmpty(s.poles) {
      SpacesComplete(s.poles, s.maxPoleHeight, to);
      var k :| 0 <= k < |sp| && sp[k].0 == to;
      assert sp[k] == (to, TopColor(s.poles[from]).value);
    }
    AllPairsComplete(s.poles, LastEmpty(s.poles), sp, from, to);
    MovesOfComplete(s, AvailablePairs(s), from, to);
  }

  /** The generator filters sources by emptiness only: a finished pole, which
      cannot move, is still moved onto the kept empty pole. */
  lemma FinishedPoleStillMoves(s: GameState, from: nat)
    requires from < |s.poles| && !IsEmpty(s.poles[from])
    requires IsFinished(s.poles[from], s.maxPoleHeight)
    requires LastEmpty(s.poles) >= 0
    ensures !CanMove(s.poles[from], s.maxPoleHeight)
    ensures Moved(s, from, LastEmpty(s.poles)) in AvailableMoves(s)
  {
    AvailableMovesComplete(s, from, LastEmpty(s.poles));
  }

  /** What every listed move does to the state: it starts from `s`, links back
      to itself, counts one move, keeps the height and the colours, carries the
      new state's score and keeps every pole within the height. */
  lemma AvailableMoveFacts(s: GameState, m: PotentialMove)
    requires m in AvailableMoves(s)
    ensures m.oldState == s && Linked(m)
    ensures m.newState.movesTaken == s.movesTaken + 1
    ensures m.newState.maxPoleHeight == s.maxPoleHeight
    ensures Colours(m.newState.poles) == Colours(s.poles)
    ensures m.score == ScoreOf(m.newState)
    ensures WithinHeight(s) ==> WithinHeight(m.newState)
  {
    AvailableMovesSound(s, m);
    MovedFacts(s, m.move.from, m.move.to);
    MoveConservesColours(s, m.move.from, m.move.to);
    if WithinHeight(s) {
      MovePreservesHeight(s, m.move.from, m.move.to);
    }
  }

  // ---------------------------------------------------------------- one move per pair

  /** No pair occurs twice. */
  ghost predicate Distinct(ps: seq<(nat, nat)>)
  {
    forall a, b :: 0 <= a < b < |ps| ==> ps[a] != ps[b]
  }

  /** The destinations of the inner loop's pairs increase with the spaces. */
  lemma {:induction false} MatchPairsIncreasing(i: nat, top: Option<Color>, sp: seq<(nat, Color)>)
    requires forall k, l :: 0 <= k < l < |sp| ==> sp[k].0 < sp[l].0
    ensures forall a, b :: 0 <= a < b < |MatchPairs(i, top, sp)| ==>
      MatchPairs(i, top, sp)[a].1 < MatchPairs(i, top, sp)[b].1
  {
    if |sp| > 0 {
      var n := |sp| - 1;
      var pre := MatchPairs(i, top, sp[..n]);
      MatchPairsIncreasing(i, top, sp[..n]);
      forall a | 0 <= a < |pre| ensures pre[a].1 < sp[n].0 {
        MatchPairsSound(i, top, sp[..n], pre[a]);
        var k :| 0 <= k < n && sp[..n][k] == (pre[a].1, top.value);
      }
    }
  }

  /** The pairs from one source all start there and are pairwise distinct,
      when the spaces increase and none of them is the empty pole. */
  lemma PairsFromDistinct(i: nat, top: Option<Color>, empty: int, sp: seq<(nat, Color)>)
    requires forall k, l :: 0 <= k < l < |sp| ==> sp[k].0 < sp[l].0
    requires forall k :: 0 <= k < |sp| ==> sp[k].0 != empty
    ensures Distinct(PairsFrom(i, top, empty, sp))
    ensures forall k :: 0 <= k < |PairsFrom(i, top, empty, sp)| ==> PairsFrom(i, top, empty, sp)[k].0 == i
  {
    var m := MatchPairs(i, top, sp);
    MatchPairsIncreasing(i, top, sp);
    forall a | 0 <= a < |m| ensures m[a].0 == i && m[a].1 != empty {
      MatchPairsSound(i, top, sp, m[a]);
      var k :| 0 <= k < |sp| && sp[k] == (m[a].1, top.value);
    }
  }

  lemma {:induction false} AllPairsDistinct(ps: seq<Pole>, empty: int, sp: seq<(nat, Color)>)
    requires forall k, l :: 0 <= k < l < |sp| ==> sp[k].0 < sp[l].0
    requires forall k :: 0 <= k < |sp| ==> sp[k].0 != empty
    ensures Distinct(AllPairs(ps, empty, sp))
  {
    if |ps| > 0 {
      var n := |ps| - 1;
      var pre := AllPairs(ps[..n], empty, sp);
      var here := if !IsEmpty(ps[n]) then PairsFrom(n, TopColor(ps[n]), empty, sp) else [];
      AllPairsDistinct(ps[..n], empty, sp);
      if !IsEmpty(ps[n]) {
        PairsFromDistinct(n, TopColor(ps[n]), empty, sp);
      }
      forall a | 0 <= a < |pre| ensures pre[a].0 < n {
        AllPairsSound(ps[..n], empty, sp, pre[a]);
      }
      assert AllPairs(ps, empty, sp) == pre + here;
    }
  }

  /** The generator tries each (source, destination) pair at most once. */
  lemma AvailablePairsDistinct(s: GameState)
    ensures Distinct(AvailablePairs(s))
  {
    var sp := Spaces(s.poles, s.maxPoleHeight);
    AllPairsDistinct(s.poles, LastEmpty(s.poles), sp);
  }

  /** Every pair the generator tries is one the transfer accepts. */
  lemma AvailablePairsValid(s: GameState)
    ensures forall k :: 0 <= k < |AvailablePairs(s)| ==> ValidPair(s, AvailablePairs(s)[k])
  {
    var sp := Spaces(s.poles, s.maxPoleHeight);
    var e := LastEmpty(s.poles);
    forall k | 0 <= k < |AvailablePairs(s)| ensures ValidPair(s, AvailablePairs(s)[k]) {
      var p := AvailablePairs(s)[k];
      AllPairsSound(s.poles, e, sp, p);
      if p.1 != e {
        var j :| 0 <= j < |sp| && sp[j] == (p.1, TopColor(s.poles[p.0]).value);
      }
    }
  }

  /** One accepted pair adds one move, going between that pair's poles. */
  lemma MovesOfLast(s: GameState, ps: seq<(nat, nat)>)
    requires |ps| > 0 && ValidPair(s, ps[|ps| - 1])
    ensures var pre := MovesOf(s, ps[..|ps| - 1]);
            && |MovesOf(s, ps)| == |pre| + 1
            && MovesOf(s, ps)[..|pre|] == pre
            && (MovesOf(s, ps)[|pre|].move.from, MovesOf(s, ps)[|pre|].move.to) == ps[|ps| - 1]
  {
  }

  /** When every pair is accepted, there is one move per pair. */
  lemma {:induction false} MovesOfLength(s: GameState, ps: seq<(nat, nat)>)
    requires forall k :: 0 <= k < |ps| ==> ValidPair(s, ps[k])
    ensures |MovesOf(s, ps)| == |ps|
  {
    if |ps| > 0 {
      var n := |ps| - 1;
      forall k | 0 <= k < n ensures ValidPair(s, ps[..n][k]) {
        assert ps[..n][k] == ps[k];
      }
      MovesOfLength(s, ps[..n]);
      assert ValidPair(s, ps[n]);
    }
  }

  /** When every pair is accepted, the move at each position goes from
      that position's pair's source to its destination. */
  lemma {:induction false} MovesOfAt(s: GameState, ps: seq<(nat, nat)>, k: nat)
    requires forall j :: 0 <= j < |ps| ==> ValidPair(s, ps[j])
    requires k < |ps|
    ensures k < |MovesOf(s, ps)|
    ensures (MovesOf(s, ps)[k].move.from, MovesOf(s, ps)[k].move.to) == ps[k]
  {
    var n := |ps| - 1;
    assert forall j :: 0 <= j < n ==> ps[..n][j] == ps[j];
    MovesOfLength(s, ps[..n]);
    MovesOfLast(s, ps);
    if k < n {
      MovesOfAt(s, ps[..n], k);
      assert MovesOf(s, ps)[k] == MovesOf(s, ps)[..n][k];
    }
  }

  /** When every pair is accepted, there is one move per pair, in order,
      each going from the pair's source to its destination. */
  lemma {:induction false} MovesOfIndex(s: GameState, ps: seq<(nat, nat)>)
    requires forall k :: 0 <= k < |ps| ==> ValidPair(s, ps[k])
    ensures |MovesOf(s, ps)| == |ps|
    ensures forall k :: 0 <= k < |ps| ==> (MovesOf(s, ps)[k].move.from, MovesOf(s, ps)[k].move.to) == ps[k]
  {
    MovesOfLength(s, ps);
    forall k | 0 <= k < |ps| ensures (MovesOf(s, ps)[k].move.from, MovesOf(s, ps)[k].move.to) == ps[k] {
      MovesOfAt(s, ps, k);
    }
  }

  /** The state offers exactly one move per pair the generator tries, in
      the order tried, and those pairs are distinct; with
      `AvailableMovesSound` each move is the transfer of its pair. */
  lemma AvailableMovesOnePerPair(s: GameState)
    ensures Distinct(AvailablePairs(s))
    ensures |AvailableMoves(s)| == |AvailablePairs(s)|
    ensures forall k :: 0 <= k < |AvailablePairs(s)| ==>
      (AvailableMoves(s)[k].move.from, AvailableMoves(s)[k].move.to) == AvailablePairs(s)[k]
  {
    AvailablePairsDistinct(s);
    AvailablePairsValid(s);
    MovesOfIndex(s, AvailablePairs(s));
  }
}
