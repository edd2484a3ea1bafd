/** A candidate move as the search keeps it: the state it starts from, the
    state it produces, its description and the produced state's score. */
module Moves {
  import opened Wrappers
  import opened Game

  datatype PotentialMove = PotentialMove(oldState: GameState, newState: GameState, move: MoveDesc, score: int)

  /** The record's constructor: the three arguments are stored as given and
      the score is the new state's score, fixed at construction. */
  function NewPotentialMove(oldState: GameState, newState: GameState, move: MoveDesc): (m: PotentialMove)
    ensures m.oldState == oldState && m.newState == newState && m.move == move
    ensures m.score == ScoreOf(newState)
    ensures m.score >= newState.movesTaken
  {
    ScoreBounds(newState);
    PotentialMove(oldState, newState, move, ScoreOf(newState))
  }

  /** The move's new state links back to exactly this move. */
  predicate Linked(m: PotentialMove)
  {
    m.newState.lastMove == Some(MoveLink(m.oldState, m.move, m.score))
  }

  /** The move that produced `s` (null for a loaded state), rebuilt from the
      back-link: its new state is `s` itself. */
  function LastMove(s: GameState): (r: Option<PotentialMove>)
    ensures r.None? <==> s.lastMove.None?
    ensures r.Some? ==> r.value.newState == s && r.value.oldState == s.lastMove.value.oldState && Linked(r.value)
  {
    match s.lastMove
    case None => None
    case Some(link) => Some(PotentialMove(link.oldState, s, link.move, link.score))
  }

  lemma LinkedLastMove(m: PotentialMove)
    requires Linked(m)
    ensures LastMove(m.newState) == Some(m)
  {
  }
}
