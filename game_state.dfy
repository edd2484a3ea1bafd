/** A snapshot of the puzzle: the poles, their common maximum height, the
    number of moves taken from the loaded puzzle, and a back-link to the move
    that produced it. The win test, the score heuristic and the
    order-independent deduplication key are defined here. */
module Game {
  import opened Wrappers
  import opened PoleState
  import Text

  /** What a move did: how many hoops of which colour went from which pole to
      which. GameState.cs renders this as "Move <count> <color> from #<from> to #<to>". */
  datatype MoveDesc = MoveDesc(count: nat, color: Color, from: nat, to: nat)

  /** The move that produced a state, without its new state (which is the
      state that holds the link). */
  datatype MoveLink = MoveLink(oldState: GameState, move: MoveDesc, score: int)

  datatype GameState = GameState(
    maxPoleHeight: nat,
    poles: seq<Pole>,
    movesTaken: nat,
    lastMove: Option<MoveLink>)

  /** No pole is both non-empty and unfinished. */
  predicate IsWin(s: GameState)
    ensures IsWin(s) <==> forall i :: 0 <= i < |s.poles| ==>
      s.poles[i].hoops == [] ||
      (|s.poles[i].hoops| == s.maxPoleHeight && forall c :: c in s.poles[i].hoops ==> c == s.poles[i].hoops[0])
  {
    !exists i :: 0 <= i < |s.poles| && !IsEmpty(s.poles[i]) && !IsFinished(s.poles[i], s.maxPoleHeight)
  }

  // ---------------------------------------------------------------- score

  /** The number of hoops in `h` whose colour is not `top`. */
  function CountUnlike(h: seq<Color>, top: Option<Color>): nat
  {
    if |h| == 0 then 0
    else CountUnlike(h[..|h| - 1], top) + (if Some(h[|h| - 1]) != top then 1 else 0)
  }

  /** Over all poles, the number of hoops whose colour differs from the top
      colour of their own pole. */
  function Misplaced(ps: seq<Pole>): nat
  {
    if |ps| == 0 then 0
    else
      var p := ps[|ps| - 1];
      Misplaced(ps[..|ps| - 1]) + CountUnlike(p.hoops, TopColor(p))
  }

  /** The search priority: moves taken plus 5 for every hoop that is not the
      colour of its pole's top (lower is better). */
  function ScoreOf(s: GameState): int
  {
    s.movesTaken + 5 * Misplaced(s.poles)
  }

  method Score(s: GameState) returns (score: int)
    ensures score == ScoreOf(s)
  {
    score := s.movesTaken;
    for i := 0 to |s.poles|
      invariant score == s.movesTaken + 5 * Misplaced(s.poles[..i])
    {
      var pole := s.poles[i];
      var topColor := TopColor(pole);
      for j := 0 to |pole.hoops|
        invariant score == s.movesTaken + 5 * (Misplaced(s.poles[..i]) + CountUnlike(pole.hoops[..j], topColor))
      {
        if Some(pole.hoops[j]) != topColor {
          score := score + 5;
        }
        assert pole.hoops[..j + 1][..j] == pole.hoops[..j];
      }
      assert pole.hoops[..|pole.hoops|] == pole.hoops;
      assert s.poles[..i + 1][..i] == s.poles[..i];
    }
    assert s.poles[..|s.poles|] == s.poles;
  }

  /** Every hoop of the pole has the pole's top colour (true of an empty pole). */
  ghost predicate Uniform(p: Pole)
  {
    forall k :: 0 <= k < |p.hoops| ==> TopColor(p) == Some(p.hoops[k])
  }

  lemma {:induction false} CountUnlikeZero(h: seq<Color>, top: Option<Color>)
    ensures CountUnlike(h, top) == 0 <==> forall k :: 0 <= k < |h| ==> Some(h[k]) == top
  {
    if |h| > 0 {
      var n := |h| - 1;
      CountUnlikeZero(h[..n], top);
      if CountUnlike(h, top) == 0 {
        forall k | 0 <= k < n ensures Some(h[k]) == top {
          assert h[..n][k] == h[k];
        }
      } else if CountUnlike(h[..n], top) != 0 {
        var k :| 0 <= k < n && Some(h[..n][k]) != top;
        assert h[k] == h[..n][k];
      }
    }
  }

  lemma {:induction false} MisplacedZero(ps: seq<Pole>)
    ensures Misplaced(ps) == 0 <==> forall i :: 0 <= i < |ps| ==> Uniform(ps[i])
  {
    if |ps| > 0 {
      var p := ps[|ps| - 1];
      MisplacedZero(ps[..|ps| - 1]);
      CountUnlikeZero(p.hoops, TopColor(p));
      if Misplaced(ps) == 0 {
        forall i | 0 <= i < |ps| ensures Uniform(ps[i]) {
          if i < |ps| - 1 { assert ps[i] == ps[..|ps| - 1][i]; }
        }
      } else if CountUnlike(p.hoops, TopColor(p)) == 0 {
        var i :| 0 <= i < |ps[..|ps| - 1]| && !Uniform(ps[..|ps| - 1][i]);
        assert ps[i] == ps[..|ps| - 1][i];
      }
    }
  }

  /** The score never undercuts the moves taken, and it equals them exactly
      when every pole is of one colour. */
  lemma ScoreBounds(s: GameState)
    ensures ScoreOf(s) >= s.movesTaken
    ensures ScoreOf(s) == s.movesTaken <==> forall i :: 0 <= i < |s.poles| ==> Uniform(s.poles[i])
  {
    MisplacedZero(s.poles);
  }

  /** A won state scores exactly its moves taken. */
  lemma WinScore(s: GameState)
    requires IsWin(s)
    ensures ScoreOf(s) == s.movesTaken
  {
    forall i | 0 <= i < |s.poles| ensures Uniform(s.poles[i]) {
      var h := s.poles[i].hoops;
      forall k | 0 <= k < |h| ensures TopColor(s.poles[i]) == Some(h[k]) {
        assert h[k] in h && h[|h| - 1] in h;
      }
    }
    ScoreBounds(s);
  }

  // ---------------------------------------------------------------- key

  /** `f` applied to each element, in order. */
  function Map<T, U>(f: T -> U, xs: seq<T>): seq<U>
  {
    if |xs| == 0 then [] else [f(xs[0])] + Map(f, xs[1..])
  }

  /** Element `i` of the image is the image of element `i`. */
  lemma {:induction false} MapIndex<T, U>(f: T -> U, xs: seq<T>)
    ensures |Map(f, xs)| == |xs|
    ensures forall i :: 0 <= i < |xs| ==> Map(f, xs)[i] == f(xs[i])
  {
    if |xs| > 0 {
      MapIndex(f, xs[1..]);
      forall i | 0 < i < |xs| ensures Map(f, xs)[i] == f(xs[i]) {
        assert xs[1..][i - 1] == xs[i];
      }
    }
  }

  /** The board's key: the per-pole keys sorted and joined by newlines. */
  function ToHashString(s: GameState): string
  {
    Text.Join("\n", Text.Sort(Map(PoleState.ToHashString, s.poles)))
  }

  /** Every colour name on the board is plain. */
  predicate PlainBoard(s: GameState)
  {
    forall i :: 0 <= i < |s.poles| ==> PoleState.PlainPole(s.poles[i])
  }

  /** Reads a board key back into poles, in key order. */
  function ParseKey(key: string): seq<Pole>
  {
    Map(PoleState.ParseKey, Text.Split("\n", 0, key))
  }

  /** For a board of one or more poles whose colour names are plain,
      reading the key back gives the poles, in some order. */
  lemma KeyRoundTrip(s: GameState)
    requires |s.poles| > 0 && PlainBoard(s)
    ensures multiset(ParseKey(ToHashString(s))) == multiset(s.poles)
  {
    var keys := Map(PoleState.ToHashString, s.poles);
    ParseEachKey(s.poles);
    SortedKeysSplit(keys);
    MapPermutation(PoleState.ParseKey, Text.Sort(keys), keys);
  }

  /** Sorted line-free keys, joined by newlines, split back into themselves. */
  lemma SortedKeysSplit(keys: seq<string>)
    requires |keys| > 0 && forall k :: 0 <= k < |keys| ==> '\n' !in keys[k]
    ensures multiset(Text.Sort(keys)) == multiset(keys)
    ensures Text.Split("\n", 0, Text.Join("\n", Text.Sort(keys))) == Text.Sort(keys)
  {
    var sorted := Text.Sort(keys);
    Text.SortSorted(keys);
    forall k | 0 <= k < |sorted| ensures '\n' !in sorted[k] {
      assert sorted[k] in multiset(keys);
      var i :| 0 <= i < |keys| && keys[i] == sorted[k];
    }
    assert |sorted| == |multiset(sorted)| == |multiset(keys)| == |keys|;
    Text.SplitJoin("\n", 0, sorted);
  }

  /** Each plain pole's key is line-free and reads back as that pole. */
  lemma ParseEachKey(ps: seq<Pole>)
    requires forall i :: 0 <= i < |ps| ==> PoleState.PlainPole(ps[i])
    ensures |Map(PoleState.ToHashString, ps)| == |ps|
    ensures forall k :: 0 <= k < |ps| ==> '\n' !in Map(PoleState.ToHashString, ps)[k]
    ensures Map(PoleState.ParseKey, Map(PoleState.ToHashString, ps)) == ps
  {
    var keys := Map(PoleState.ToHashString, ps);
    MapIndex(PoleState.ToHashString, ps);
    MapIndex(PoleState.ParseKey, keys);
    forall k | 0 <= k < |ps| ensures '\n' !in keys[k] && PoleState.ParseKey(keys[k]) == ps[k] {
      PoleState.KeyRoundTrip(ps[k]);
    }
  }

  /** Boards of one or more poles with plain colour names share a key only
      when they hold the same poles, up to order. */
  lemma KeyDeterminesPoles(s: GameState, t: GameState)
    requires |s.poles| > 0 && PlainBoard(s)
    requires |t.poles| > 0 && PlainBoard(t)
    requires ToHashString(s) == ToHashString(t)
    ensures multiset(s.poles) == multiset(t.poles)
  {
    KeyRoundTrip(s);
    KeyRoundTrip(t);
  }

  /** Mapping keeps a permutation a permutation. */
  lemma {:induction false} MapPermutation<T, U>(f: T -> U, xs: seq<T>, ys: seq<T>)
    requires multiset(xs) == multiset(ys)
    ensures multiset(Map(f, xs)) == multiset(Map(f, ys))
    decreases |xs|
  {
    if |xs| == 0 {
      assert |multiset(ys)| == 0;
    } else {
      var x := xs[0];
      assert x in multiset(ys);
      var k :| 0 <= k < |ys| && ys[k] == x;
      var rest := ys[..k] + ys[k + 1..];
      RemoveMatching(xs, ys, k);
      MapPermutation(f, xs[1..], rest);
      MapIndex(f, ys);
      MapIndex(f, rest);
      MapRemove(f, ys, Map(f, ys), Map(f, rest), k);
    }
  }

  /** Removing one element before mapping removes its image after. */
  lemma MapRemove<T, U>(f: T -> U, xs: seq<T>, ys: seq<U>, zs: seq<U>, k: nat)
    requires k < |xs| && |ys| == |xs| && |zs| == |xs| - 1
    requires forall i :: 0 <= i < |xs| ==> ys[i] == f(xs[i])
    requires forall i :: 0 <= i < |zs| ==> zs[i] == f((xs[..k] + xs[k + 1..])[i])
    ensures multiset(ys) == multiset(zs) + multiset{f(xs[k])}
  {
    RemoveOne(ys, k);
    var a := ys[..k] + ys[k + 1..];
    forall i | 0 <= i < |a| ensures a[i] == zs[i] {
      if i < k { assert a[i] == ys[i] && (xs[..k] + xs[k + 1..])[i] == xs[i]; }
      else { assert a[i] == ys[i + 1] && (xs[..k] + xs[k + 1..])[i] == xs[i + 1]; }
    }
    assert a == zs;
  }

  lemma RemoveMatching<T>(ps: seq<T>, qs: seq<T>, k: nat)
    requires multiset(ps) == multiset(qs)
    requires 0 < |ps| && k < |qs| && qs[k] == ps[0]
    ensures multiset(ps[1..]) == multiset(qs[..k] + qs[k + 1..])
  {
    RemoveOne(qs, k);
    assert ps == [ps[0]] + ps[1..];
    assert multiset(ps) == multiset{ps[0]} + multiset(ps[1..]);
  }

  lemma RemoveOne<T>(s: seq<T>, k: nat)
    requires k < |s|
    ensures multiset(s) == multiset(s[..k] + s[k + 1..]) + multiset{s[k]}
    ensures multiset(s[..k] + s[k + 1..]) == multiset(s) - multiset{s[k]}
  {
    assert s == s[..k] + [s[k]] + s[k + 1..];
    assert multiset(s) == multiset(s[..k]) + multiset{s[k]} + multiset(s[k + 1..]);
  }

  /** The key depends only on the multiset of pole contents: permuting the
      poles (or changing anything but the poles) leaves it unchanged. */
  lemma HashStringPermutationInvariant(s: GameState, t: GameState)
    requires multiset(s.poles) == multiset(t.poles)
    ensures ToHashString(s) == ToHashString(t)
  {
    MapPermutation(PoleState.ToHashString, s.poles, t.poles);
    Text.SortPermutationInvariant(Map(PoleState.ToHashString, s.poles), Map(PoleState.ToHashString, t.poles));
  }

  // ---------------------------------------------------------------- colours

  /** All hoop colours on the poles, with multiplicity. */
  function Colours(ps: seq<Pole>): multiset<Color>
  {
    if |ps| == 0 then multiset{} else Colours(ps[..|ps| - 1]) + multiset(ps[|ps| - 1].hoops)
  }

  /** Replacing one pole swaps its hoops for the new pole's in the total. */
  lemma {:induction false} ColoursUpdate(ps: seq<Pole>, i: nat, x: Pole)
    requires i < |ps|
    ensures Colours(ps[i := x]) + multiset(ps[i].hoops) == Colours(ps) + multiset(x.hoops)
  {
    var n := |ps| - 1;
    if i < n {
      ColoursUpdate(ps[..n], i, x);
      assert ps[i := x][..n] == ps[..n][i := x];
      assert ps[i := x][n] == ps[n] && ps[..n][i] == ps[i];
      calc {
        Colours(ps[i := x]) + multiset(ps[i].hoops);
        Colours(ps[..n][i := x]) + multiset(ps[n].hoops) + multiset(ps[i].hoops);
        Colours(ps[..n]) + multiset(x.hoops) + multiset(ps[n].hoops);
        Colours(ps) + multiset(x.hoops);
      }
    } else {
      assert ps[i := x][..n] == ps[..n];
    }
  }
}
