/** The best-first search over game states: a priority queue of candidate
    moves ordered by score, a set of state keys already explored, and the
    reconstruction of the winning move list from back-links. */
module Search {
  import opened Wrappers
  import opened PoleState
  import opened Game
  import opened Moves
  import opened MoveGeneration

  /** An entry of the explored set. The set is seeded with the root's display
      text, which is never a state key; it is kept as its own value. */
  datatype VisitedKey = DisplayKey | StateKey(text: string)

  datatype Outcome = Found(moves: seq<PotentialMove>) | NoSolution | OutOfFuel

  function Key(s: GameState): VisitedKey
  {
    StateKey(Game.ToHashString(s))
  }

  /** The keys of the explored states. */
  function Keys(states: seq<GameState>): set<VisitedKey>
  {
    if |states| == 0 then {} else Keys(states[..|states| - 1]) + {Key(states[|states| - 1])}
  }

  lemma {:induction false} KeysMember(states: seq<GameState>, i: nat)
    requires i < |states|
    ensures Key(states[i]) in Keys(states)
  {
    var n := |states| - 1;
    if i < n {
      KeysMember(states[..n], i);
      assert states[..n][i] == states[i];
    }
  }

  /** The moves that produced `s`, oldest first, read off the back-links. */
  function Path(s: GameState): (p: seq<PotentialMove>)
    ensures s.lastMove.None? <==> p == []
    decreases s
  {
    match s.lastMove
    case None => []
    case Some(link) => Path(link.oldState) + [LastMove(s).value]
  }

  /** Each move starts where the previous one ended. */
  ghost predicate IsChain(p: seq<PotentialMove>)
  {
    forall i :: 0 <= i < |p| - 1 ==> p[i].newState == p[i + 1].oldState
  }

  /** Each move is one the generator lists for its start state. */
  ghost predicate Generated(p: seq<PotentialMove>)
  {
    forall i :: 0 <= i < |p| ==> p[i] in AvailableMoves(p[i].oldState)
  }

  /** `s` is `root`, or its last move was generated from a state `root` reaches. */
  ghost predicate Reaches(root: GameState, s: GameState)
    decreases s
  {
    s == root ||
    (s.lastMove.Some? && LastMove(s).value in AvailableMoves(s.lastMove.value.oldState) &&
     Reaches(root, s.lastMove.value.oldState))
  }

  /** The back-link chain of any state: consecutive, each move linked to its
      new state, starting from a state with no history and ending at `s`. */
  lemma {:induction false} PathIsChain(s: GameState)
    ensures IsChain(Path(s))
    ensures forall m :: m in Path(s) ==> Linked(m)
    ensures Path(s) != [] ==> Path(s)[0].oldState.lastMove.None? && Path(s)[|Path(s)| - 1].newState == s
    decreases s
  {
    match s.lastMove
    case None =>
    case Some(link) =>
      var pre := Path(link.oldState);
      var m := LastMove(s).value;
      PathIsChain(link.oldState);
      assert Path(s) == pre + [m];
      if pre != [] {
        assert pre[|pre| - 1].newState == link.oldState == m.oldState;
      }
  }

  /** Taking a generated move from a reached state reaches its new state and
      extends the back-link path by exactly that move. */
  lemma ReachesStep(root: GameState, s: GameState, m: PotentialMove)
    requires Reaches(root, s) && m in AvailableMoves(s)
    ensures Reaches(root, m.newState)
    ensures Path(m.newState) == Path(s) + [m]
  {
    AvailableMoveFacts(s, m);
    LinkedLastMove(m);
  }

  /** A state the root reaches has the root's path as prefix and generated
      moves after it, the first of them starting at the root. */
  lemma ReachesPath(root: GameState, s: GameState)
    requires Reaches(root, s)
    ensures s == root || |Path(s)| > |Path(root)|
    ensures |Path(root)| <= |Path(s)| && Path(s)[..|Path(root)|] == Path(root)
    ensures Generated(Path(s)[|Path(root)|..])
    ensures |Path(s)| > |Path(root)| ==> Path(s)[|Path(root)|].oldState == root
  {
    ReachesPrefix(root, s);
    ReachesGenerated(root, s);
  }

  lemma {:induction false} ReachesPrefix(root: GameState, s: GameState)
    requires Reaches(root, s)
    ensures s == root || |Path(s)| > |Path(root)|
    ensures |Path(root)| <= |Path(s)| && Path(s)[..|Path(root)|] == Path(root)
    ensures |Path(s)| > |Path(root)| ==> Path(s)[|Path(root)|].oldState == root
    decreases s
  {
    if s != root {
      var prev := s.lastMove.value.oldState;
      var m := LastMove(s).value;
      var n := |Path(root)|;
      ReachesPrefix(root, prev);
      assert Path(s) == Path(prev) + [m];
      assert Path(s)[..n] == Path(prev)[..n];
      if |Path(prev)| == n {
        assert prev == root;
      }
    }
  }

  lemma {:induction false} ReachesGenerated(root: GameState, s: GameState)
    requires Reaches(root, s)
    ensures |Path(root)| <= |Path(s)| && Generated(Path(s)[|Path(root)|..])
    decreases s
  {
    ReachesPrefix(root, s);
    if s != root {
      var prev := s.lastMove.value.oldState;
      var m := LastMove(s).value;
      var n := |Path(root)|;
      ReachesGenerated(root, prev);
      var tail := Path(prev)[n..];
      assert Path(s) == Path(prev) + [m];
      assert Path(s)[n..] == tail + [m];
      forall i | 0 <= i < |tail| + 1
        ensures (tail + [m])[i] in AvailableMoves((tail + [m])[i].oldState)
      {
        if i < |tail| {
          assert (tail + [m])[i] == tail[i];
        }
      }
    }
  }

  /** A state the root reaches counts one move per move after the root's
      path and keeps the root's colours and height. */
  lemma {:induction false} ReachesKeeps(root: GameState, s: GameState)
    requires Reaches(root, s)
    ensures s.movesTaken == root.movesTaken + |Path(s)| - |Path(root)|
    ensures Colours(s.poles) == Colours(root.poles) && s.maxPoleHeight == root.maxPoleHeight
    ensures WithinHeight(root) ==> WithinHeight(s)
    decreases s
  {
    if s != root {
      var prev := s.lastMove.value.oldState;
      var m := LastMove(s).value;
      ReachesKeeps(root, prev);
      ReachesPath(root, prev);
      AvailableMoveFacts(prev, m);
      assert |Path(s)| == |Path(prev)| + 1;
    }
  }

  /** What a returned move list satisfies: the moves leading to the root come
      first, then a chain of generated moves that starts at the root and ends
      in a win, every move linked to its new state. */
  ghost predicate Solution(root: GameState, p: seq<PotentialMove>)
  {
    var n := |Path(root)|;
    n < |p| && p[..n] == Path(root) && p[n].oldState == root &&
    IsChain(p) && Generated(p[n..]) && (forall m :: m in p ==> Linked(m)) &&
    IsWin(p[|p| - 1].newState)
  }

  /** For a freshly loaded root, a solution is a chain of generated moves from
      the root to a win whose last state counts exactly its moves and keeps
      the root's colours. */
  lemma SolutionFromLoaded(root: GameState, p: seq<PotentialMove>)
    requires root.lastMove.None? && Solution(root, p)
    requires p == Path(p[|p| - 1].newState)
    ensures p[0].oldState == root && Generated(p) && IsChain(p)
    ensures IsWin(p[|p| - 1].newState)
    ensures p[|p| - 1].newState.movesTaken == root.movesTaken + |p|
    ensures Colours(p[|p| - 1].newState.poles) == Colours(root.poles)
  {
    var last := p[|p| - 1];
    assert p[0..] == p;
    ReachesFromGenerated(root, p, |p|);
    ReachesPath(root, last.newState);
    ReachesKeeps(root, last.newState);
  }

  lemma {:induction false} ReachesFromGenerated(root: GameState, p: seq<PotentialMove>, k: nat)
    requires 0 < k <= |p| && p[0].oldState == root && Generated(p) && IsChain(p)
    requires forall m :: m in p ==> Linked(m)
    ensures Reaches(root, p[k - 1].newState)
  {
    var m := p[k - 1];
    LinkedLastMove(m);
    if k == 1 {
      assert Reaches(root, m.oldState);
    } else {
      ReachesFromGenerated(root, p, k - 1);
    }
  }

  /** The dequeue of the priority queue: an entry of least score. */
  method MinScoreIndex(queue: seq<PotentialMove>) returns (i: nat)
    requires |queue| > 0
    ensures i < |queue|
    ensures forall j :: 0 <= j < |queue| ==> queue[i].score <= queue[j].score
  {
    i := 0;
    for k := 1 to |queue|
      invariant i < k
      invariant forall j :: 0 <= j < k ==> queue[i].score <= queue[j].score
    {
      if queue[k].score < queue[i].score {
        i := k;
      }
    }
  }

  /** The winning move list, built by prepending moves while following the
      back-links. */
  method ReconstructPath(move: PotentialMove) returns (path: seq<PotentialMove>)
    ensures path == Path(move.oldState) + [move]
  {
    path := [];
    var thisMove := Some(move);
    while thisMove.Some?
      invariant (if thisMove.Some? then Path(thisMove.value.oldState) + [thisMove.value] else []) + path ==
                Path(move.oldState) + [move]
      decreases if thisMove.Some? then |Path(thisMove.value.oldState)| + 1 else 0
    {
      var m := thisMove.value;
      path := [m] + path;
      thisMove := LastMove(m.oldState);
    }
  }

  /** The first child whose new state is a win, in generation order. */
  function FirstWinner(children: seq<PotentialMove>): (r: Option<PotentialMove>)
    ensures r.None? <==> forall c :: c in children ==> !IsWin(c.newState)
    ensures r.Some? ==> r.value in children && IsWin(r.value.newState)
  {
    if |children| == 0 then None
    else if IsWin(children[0].newState) then Some(children[0])
    else
      assert forall c :: c in children ==> c == children[0] || c in children[1..];
      FirstWinner(children[1..])
  }

  /** The winner is the first child that wins: every child before it loses. */
  lemma {:induction false} FirstWinnerIsFirst(children: seq<PotentialMove>)
    ensures FirstWinner(children).Some? ==>
      exists k :: 0 <= k < |children| && children[k] == FirstWinner(children).value &&
        forall j :: 0 <= j < k ==> !IsWin(children[j].newState)
  {
    if |children| > 0 && !IsWin(children[0].newState) {
      var rest := children[1..];
      FirstWinnerIsFirst(rest);
      if FirstWinner(rest).Some? {
        var k :| 0 <= k < |rest| && rest[k] == FirstWinner(rest).value &&
          forall j :: 0 <= j < k ==> !IsWin(rest[j].newState);
        assert children[k + 1] == rest[k];
        forall j | 0 <= j < k + 1 ensures !IsWin(children[j].newState) {
          if j > 0 { assert children[j] == rest[j - 1]; }
        }
      }
    }
  }

  /** The inner loop of the search: each child is checked for a win and
      otherwise enqueued; the first win stops the loop. */
  method EnqueueChildren(children: seq<PotentialMove>, queue0: seq<PotentialMove>)
    returns (winner: Option<PotentialMove>, queue: seq<PotentialMove>)
    ensures winner == FirstWinner(children)
    ensures winner.None? ==> queue == queue0 + children
  {
    queue := queue0;
    for k := 0 to |children|
      invariant queue == queue0 + children[..k]
      invariant FirstWinner(children) == FirstWinner(children[k..])
    {
      var move := children[k];
      assert children[k..][1..] == children[k + 1..];
      if IsWin(move.newState) {
        return Some(move), queue;
      }
      queue := queue + [move];
      assert children[..k + 1] == children[..k] + [move];
    }
    assert children[..|children|] == children;
    return None, queue;
  }

  ghost predicate QueueOk(root: GameState, queue: seq<PotentialMove>)
  {
    forall q :: q in queue ==> q in AvailableMoves(q.oldState) && Reaches(root, q.oldState)
  }

  ghost predicate Covered(m: PotentialMove, queue: seq<PotentialMove>, visited: set<VisitedKey>)
  {
    m in queue || Key(m.newState) in visited
  }

  /** Every move from the root or from an explored state is still queued or
      leads to an explored key, and no move from an explored state wins. */
  ghost predicate Closed(root: GameState, expanded: seq<GameState>, queue: seq<PotentialMove>, visited: set<VisitedKey>)
  {
    (forall m :: m in AvailableMoves(root) ==> Covered(m, queue, visited)) &&
    (forall i :: 0 <= i < |expanded| ==> Settled(expanded[i], queue, visited))
  }

  /** No move from the explored state `e` wins and each is covered. */
  ghost predicate Settled(e: GameState, queue: seq<PotentialMove>, visited: set<VisitedKey>)
  {
    forall m :: m in AvailableMoves(e) ==> !IsWin(m.newState) && Covered(m, queue, visited)
  }

  lemma RemoveKeeps(queue: seq<PotentialMove>, i: nat, m: PotentialMove)
    requires i < |queue| && m in queue && m != queue[i]
    ensures m in queue[..i] + queue[i + 1..]
  {
    var k :| 0 <= k < |queue| && queue[k] == m;
    if k < i {
      assert (queue[..i] + queue[i + 1..])[k] == m;
    } else {
      assert (queue[..i] + queue[i + 1..])[k - 1] == m;
    }
  }

  /** Removing the dequeued move keeps the closure once its key is explored. */
  lemma ClosedAfterDequeue(root: GameState, expanded: seq<GameState>, queue: seq<PotentialMove>,
                           visited: set<VisitedKey>, i: nat, visited': set<VisitedKey>)
    requires i < |queue| && Closed(root, expanded, queue, visited)
    requires visited <= visited' && Key(queue[i].newState) in visited'
    ensures Closed(root, expanded, queue[..i] + queue[i + 1..], visited')
  {
    var rest := queue[..i] + queue[i + 1..];
    forall m | Covered(m, queue, visited)
      ensures Covered(m, rest, visited')
    {
      if m in queue && m != queue[i] {
        RemoveKeeps(queue, i, m);
      }
    }
    forall j | 0 <= j < |expanded|
      ensures Settled(expanded[j], rest, visited')
    {
      assert Settled(expanded[j], queue, visited);
    }
  }

  lemma Initially(game: GameState, queue: seq<PotentialMove>)
    requires queue == AvailableMoves(game)
    ensures QueueOk(game, queue)
    ensures Closed(game, [], queue, {DisplayKey})
  {
    forall q | q in queue
      ensures q in AvailableMoves(q.oldState) && Reaches(game, q.oldState)
    {
      AvailableMoveFacts(game, q);
    }
  }

  lemma QueueOkRemove(game: GameState, queue: seq<PotentialMove>, i: nat)
    requires i < |queue| && QueueOk(game, queue)
    ensures QueueOk(game, queue[..i] + queue[i + 1..])
  {
    forall q | q in queue[..i] + queue[i + 1..]
      ensures q in queue
    {
    }
  }

  /** With the queue drained, the explored keys are closed under moves. */
  lemma NoSolutionClosed(game: GameState, expanded: seq<GameState>, visited: set<VisitedKey>)
    requires Closed(game, expanded, [], visited) && visited == {DisplayKey} + Keys(expanded)
    ensures forall m :: m in AvailableMoves(game) ==> Key(m.newState) in Keys(expanded)
    ensures forall i, m :: 0 <= i < |expanded| && m in AvailableMoves(expanded[i]) ==>
      !IsWin(m.newState) && Key(m.newState) in Keys(expanded)
  {
    forall i, m | 0 <= i < |expanded| && m in AvailableMoves(expanded[i])
      ensures !IsWin(m.newState) && Key(m.newState) in Keys(expanded)
    {
      assert Settled(expanded[i], [], visited);
    }
  }

  /** Every explored state is reached from the root and no key is explored
      twice. */
  ghost predicate ExpandedOk(root: GameState, expanded: seq<GameState>)
  {
    (forall e :: e in expanded ==> Reaches(root, e)) &&
    (forall i, j :: 0 <= i < j < |expanded| ==> Key(expanded[i]) != Key(expanded[j]))
  }

  /** The invariant of the search loop. */
  ghost predicate SearchInv(root: GameState, queue: seq<PotentialMove>, visited: set<VisitedKey>, expanded: seq<GameState>)
  {
    QueueOk(root, queue) && ExpandedOk(root, expanded) &&
    visited == {DisplayKey} + Keys(expanded) && Closed(root, expanded, queue, visited)
  }

  /** One round of the search loop: dequeue entry `i`, one of least score;
      a state whose key was explored before is dropped, otherwise its key is
      recorded and its moves are checked for a win, the others enqueued. */
  method SearchStep(game: GameState, queue0: seq<PotentialMove>, visited0: set<VisitedKey>, ghost expanded0: seq<GameState>)
    returns (found: Option<seq<PotentialMove>>, queue: seq<PotentialMove>, visited: set<VisitedKey>,
             ghost expanded: seq<GameState>, i: nat)
    requires |queue0| > 0 && SearchInv(game, queue0, visited0, expanded0)
    ensures i < |queue0| && forall j :: 0 <= j < |queue0| ==> queue0[i].score <= queue0[j].score
    ensures var state := queue0[i].newState;
            Key(state) in visited0 ==>
              found.None? && queue == queue0[..i] + queue0[i + 1..] && visited == visited0 && expanded == expanded0
    ensures var state := queue0[i].newState;
            Key(state) !in visited0 ==>
              && visited == visited0 + {Key(state)} && expanded == expanded0 + [state]
              && found.None? == FirstWinner(AvailableMoves(state)).None?
              && (found.None? ==> queue == queue0[..i] + queue0[i + 1..] + AvailableMoves(state))
    ensures found.Some? ==> var w := FirstWinner(AvailableMoves(queue0[i].newState)).value;
            found.value == Path(w.oldState) + [w]
    ensures found.Some? ==> Solution(game, found.value) && found.value == Path(found.value[|found.value| - 1].newState)
    ensures ExpandedOk(game, expanded)
    ensures found.None? ==> SearchInv(game, queue, visited, expanded)
  {
    i := MinScoreIndex(queue0);
    var current := queue0[i];
    assert current in queue0;
    var key := Key(current.newState);
    ReachesStep(game, current.oldState, current);
    QueueOkRemove(game, queue0, i);
    if key in visited0 {
      ClosedAfterDequeue(game, expanded0, queue0, visited0, i, visited0);
      return None, queue0[..i] + queue0[i + 1..], visited0, expanded0, i;
    }
    ClosedAfterDequeue(game, expanded0, queue0, visited0, i, visited0 + {key});
    var state := current.newState;
    var winner, path;
    winner, path, queue, visited := Explore(queue0[..i] + queue0[i + 1..], visited0, state);
    ExpandedAppend(game, expanded0, state);
    expanded := expanded0 + [state];
    if winner.Some? {
      AvailableMoveFacts(state, winner.value);
      FoundIsSolution(game, winner.value, path);
      return Some(path), queue, visited, expanded, i;
    }
    ExploreKeepsInvariant(game, queue0[..i] + queue0[i + 1..], visited0, expanded0, state);
    found := None;
  }

  /** Exploring a state whose key is new: record the key, then check each of
      the state's moves for a win, enqueueing the others; a winning move ends
      the search with the move list reconstructed from the back-links. */
  method Explore(queue0: seq<PotentialMove>, visited0: set<VisitedKey>, state: GameState)
    returns (winner: Option<PotentialMove>, path: seq<PotentialMove>, queue: seq<PotentialMove>, visited: set<VisitedKey>)
    ensures visited == visited0 + {Key(state)}
    ensures winner == FirstWinner(AvailableMoves(state))
    ensures winner.Some? ==> path == Path(winner.value.oldState) + [winner.value]
    ensures winner.None? ==> queue == queue0 + AvailableMoves(state)
  {
    visited := visited0 + {Key(state)};
    var newMoves := ListAvailableMoves(state);
    winner, queue := EnqueueChildren(newMoves, queue0);
    path := [];
    if winner.Some? {
      path := ReconstructPath(winner.value);
    }
  }

  /** Exploring a reached state with a new key and no winning move keeps the
      search invariant. */
  lemma ExploreKeepsInvariant(game: GameState, queue0: seq<PotentialMove>, visited0: set<VisitedKey>,
                              expanded0: seq<GameState>, state: GameState)
    requires QueueOk(game, queue0) && ExpandedOk(game, expanded0) && Reaches(game, state)
    requires visited0 == {DisplayKey} + Keys(expanded0) && Key(state) !in visited0
    requires Closed(game, expanded0, queue0, visited0 + {Key(state)})
    requires FirstWinner(AvailableMoves(state)).None?
    ensures SearchInv(game, queue0 + AvailableMoves(state), visited0 + {Key(state)}, expanded0 + [state])
  {
    ExpandedAppend(game, expanded0, state);
    ExpandKeepsInvariants(game, expanded0, queue0, visited0 + {Key(state)}, state, AvailableMoves(state));
  }

  /** The search. The queue starts with the root's moves, unchecked for a
      win; each round takes an entry of least score and, when its state's key
      is new, records the key and checks and enqueues the state's moves. */
  method Solver(game: GameState, fuel: nat) returns (result: Outcome, ghost expanded: seq<GameState>)
    ensures result.Found? ==> Solution(game, result.moves) && result.moves == Path(result.moves[|result.moves| - 1].newState)
    ensures forall e :: e in expanded ==> Reaches(game, e)
    ensures forall i, j :: 0 <= i < j < |expanded| ==> Key(expanded[i]) != Key(expanded[j])
    ensures result.NoSolution? ==>
      (forall m :: m in AvailableMoves(game) ==> Key(m.newState) in Keys(expanded)) &&
      (forall i, m :: 0 <= i < |expanded| && m in AvailableMoves(expanded[i]) ==>
         !IsWin(m.newState) && Key(m.newState) in Keys(expanded))
  {
    var queue := ListAvailableMoves(game);
    var visited := {DisplayKey};
    expanded := [];
    Initially(game, queue);
    var f := fuel;
    while |queue| > 0 && f > 0
      invariant SearchInv(game, queue, visited, expanded)
      decreases f
    {
      f := f - 1;
      var found, dequeued;
      found, queue, visited, expanded, dequeued := SearchStep(game, queue, visited, expanded);
      if found.Some? {
        return Found(found.value), expanded;
      }
    }
    if |queue| == 0 {
      NoSolutionClosed(game, expanded, visited);
      return NoSolution, expanded;
    }
    return OutOfFuel, expanded;
  }

  /** Exploring a reached state with no winning move keeps the queue's
      origin and the closure. */
  lemma ExpandKeepsInvariants(game: GameState, expanded: seq<GameState>, queue: seq<PotentialMove>,
                              visited: set<VisitedKey>, state: GameState, newMoves: seq<PotentialMove>)
    requires QueueOk(game, queue) && Reaches(game, state)
    requires Closed(game, expanded, queue, visited) && Key(state) in visited
    requires newMoves == AvailableMoves(state)
    requires forall c :: c in newMoves ==> !IsWin(c.newState)
    ensures QueueOk(game, queue + newMoves)
    ensures Closed(game, expanded + [state], queue + newMoves, visited)
  {
    var queue' := queue + newMoves;
    forall q | q in queue'
      ensures q in AvailableMoves(q.oldState) && Reaches(game, q.oldState)
    {
      if q !in queue {
        AvailableMoveFacts(state, q);
      }
    }
    forall m | Covered(m, queue, visited)
      ensures Covered(m, queue', visited)
    {
      if m in queue {
        assert m in queue';
      }
    }
    var expanded' := expanded + [state];
    forall j | 0 <= j < |expanded'|
      ensures Settled(expanded'[j], queue', visited)
    {
      if j < |expanded| {
        assert Settled(expanded[j], queue, visited);
      }
    }
  }

  lemma KeysAppend(expanded: seq<GameState>, state: GameState)
    ensures Keys(expanded + [state]) == Keys(expanded) + {Key(state)}
  {
    assert (expanded + [state])[..|expanded|] == expanded;
  }

  lemma DistinctAppend(expanded: seq<GameState>, state: GameState)
    requires forall i, j :: 0 <= i < j < |expanded| ==> Key(expanded[i]) != Key(expanded[j])
    requires Key(state) !in Keys(expanded)
    ensures forall i, j :: 0 <= i < j < |expanded| + 1 ==> Key((expanded + [state])[i]) != Key((expanded + [state])[j])
  {
    forall i | 0 <= i < |expanded|
      ensures Key(expanded[i]) != Key(state)
    {
      KeysMember(expanded, i);
    }
  }

  lemma ExpandedAppend(game: GameState, expanded: seq<GameState>, state: GameState)
    requires ExpandedOk(game, expanded) && Reaches(game, state) && Key(state) !in Keys(expanded)
    ensures ExpandedOk(game, expanded + [state])
    ensures Keys(expanded + [state]) == Keys(expanded) + {Key(state)}
  {
    KeysAppend(expanded, state);
    DistinctAppend(expanded, state);
  }

  lemma FoundIsSolution(game: GameState, w: PotentialMove, p: seq<PotentialMove>)
    requires Reaches(game, w.oldState) && w in AvailableMoves(w.oldState)
    requires IsWin(w.newState) && p == Path(w.oldState) + [w]
    ensures Solution(game, p) && p == Path(p[|p| - 1].newState)
  {
    ReachesStep(game, w.oldState, w);
    ReachesPath(game, w.oldState);
    ReachesPath(game, w.newState);
    PathIsChain(w.newState);
  }
}
