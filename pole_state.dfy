/** One pole of the puzzle: a stack of coloured hoops, bottom first, so the
    top hoop is the last element. Every query here only reads the hoops. */
module PoleState {
  import opened Wrappers
  import Text

  /** A hoop colour, identified by its name in the puzzle file. */
  type Color = string

  datatype Pole = Pole(hoops: seq<Color>)

  predicate IsEmpty(p: Pole)
    ensures IsEmpty(p) <==> p.hoops == []
  {
    |p.hoops| == 0
  }

  /** The colour of the top hoop, or None for an empty pole. */
  function TopColor(p: Pole): (r: Option<Color>)
    ensures r == None <==> IsEmpty(p)
    ensures r.Some? ==> r.value == p.hoops[|p.hoops| - 1] && r.value in p.hoops
  {
    if |p.hoops| > 0 then Some(p.hoops[|p.hoops| - 1]) else None
  }

  /** Full height and one colour throughout. IsFinished in PoleState.cs reads the bottom hoop
      of every full pole, so an empty pole may only be asked when the height
      is positive. */
  predicate IsFinished(p: Pole, maxPoleHeight: nat)
    requires |p.hoops| > 0 || maxPoleHeight > 0
    ensures |p.hoops| != maxPoleHeight ==> !IsFinished(p, maxPoleHeight)
    ensures |p.hoops| == maxPoleHeight ==>
      (IsFinished(p, maxPoleHeight) <==> forall c :: c in p.hoops ==> c == p.hoops[0])
    ensures IsFinished(p, maxPoleHeight) ==> TopColor(p) == Some(p.hoops[0])
  {
    if |p.hoops| != maxPoleHeight then false
    else
      UniformByIndex(p.hoops);
      forall i :: 1 <= i < maxPoleHeight ==> p.hoops[i] == p.hoops[0]
  }

  lemma UniformByIndex(h: seq<Color>)
    requires |h| > 0
    ensures (forall i :: 1 <= i < |h| ==> h[i] == h[0]) <==> (forall c :: c in h ==> c == h[0])
  {
    if forall i :: 1 <= i < |h| ==> h[i] == h[0] {
      forall c | c in h ensures c == h[0] {
        var i :| 0 <= i < |h| && h[i] == c;
      }
    } else {
      var i :| 1 <= i < |h| && h[i] != h[0];
      assert h[i] in h;
    }
  }

  /** A pole can be moved from when it has hoops that are not yet settled. */
  predicate CanMove(p: Pole, maxPoleHeight: nat)
    ensures CanMove(p, maxPoleHeight) <==>
      TopColor(p).Some? && !(|p.hoops| == maxPoleHeight && forall c :: c in p.hoops ==> c == p.hoops[0])
  {
    if |p.hoops| == 0 then false
    else if IsFinished(p, maxPoleHeight) then false
    else true
  }

  /** A colour name the key can carry without ambiguity: it holds neither
      the separator's '>' nor a line break, and it is not "Empty". */
  predicate Plain(c: Color)
  {
    '>' !in c && '\n' !in c && c != "Empty"
  }

  predicate PlainPole(p: Pole)
  {
    forall k :: 0 <= k < |p.hoops| ==> Plain(p.hoops[k])
  }

  /** The per-pole part of the deduplication key: "Empty", or the colours
      from bottom to top separated by " > ". */
  function ToHashString(p: Pole): (r: string)
    ensures IsEmpty(p) ==> r == "Empty"
    ensures !IsEmpty(p) ==> p.hoops[0] <= r
    ensures !IsEmpty(p) ==> var top := TopColor(p).value; |top| <= |r| && r[|r| - |top|..] == top
  {
    if |p.hoops| == 0 then "Empty"
    else
      Text.JoinEnds(" > ", p.hoops);
      Text.Join(" > ", p.hoops)
  }

  /** Reads a per-pole key back into the pole it describes. */
  function ParseKey(r: string): Pole
  {
    if r == "Empty" then Pole([]) else Pole(Text.Split(" > ", 1, r))
  }

  /** For plain colour names the key spells out every hoop, bottom first,
      with nothing else between the separators: reading it back gives the
      pole. It holds no line break, so board keys can be cut into lines. */
  lemma KeyRoundTrip(p: Pole)
    requires PlainPole(p)
    ensures ParseKey(ToHashString(p)) == p
    ensures '\n' !in ToHashString(p)
  {
    if !IsEmpty(p) {
      JoinRoundTrip(p.hoops);
    }
  }

  lemma JoinRoundTrip(hs: seq<Color>)
    requires |hs| > 0 && forall k :: 0 <= k < |hs| ==> Plain(hs[k])
    ensures ParseKey(Text.Join(" > ", hs)) == Pole(hs)
    ensures '\n' !in Text.Join(" > ", hs)
  {
    assert forall k :: 0 <= k < |hs| ==> '>' !in hs[k] && '\n' !in hs[k];
    Text.SplitJoin(" > ", 1, hs);
    Text.JoinAvoids(" > ", hs, '\n');
    if |hs| > 1 {
      Text.JoinFirstCut(" > ", 1, hs);
      assert Text.Join(" > ", hs)[|hs[0]| + 1] == '>';
    }
  }

  /** Colour names outside `Plain` make different poles share a key. */
  lemma KeyCollisions()
    ensures ToHashString(Pole(["Empty"])) == ToHashString(Pole([]))
    ensures ToHashString(Pole(["a", "b", "a > b"])) == ToHashString(Pole(["a > b", "a", "b"]))
  {
    assert Text.Join(" > ", ["a", "b", "a > b"]) == "a > b > a > b";
    assert Text.Join(" > ", ["a > b", "a", "b"]) == "a > b > a > b";
  }
}
