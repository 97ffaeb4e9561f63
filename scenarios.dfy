/** A worked game: Pacman chooses between two moves, each answered by the
    single ghost, searched one round deep with scoreEvaluationFunction.

        root 0 --a0--> ghost node 1 --b0--> leaf 3 (score 3)
                                    --b1--> leaf 4 (score 9)
               --a1--> ghost node 2 --b0--> leaf 5 (score 2)
                                    --b1--> leaf 6 (score 5, or `last`)

    The ghost answers a0 with 3 and a1 with 2, so Pacman plays a0 for 3.
    Alpha-beta reaches ghost node 2 with alpha = 3, sees leaf 5 (2 < 3) and
    returns without looking at leaf 6: its answer is the same whatever leaf 6
    is worth, even when plain minimax would answer with leaf 6. */
module Scenarios {
  import opened Values
  import opened Games
  import M = MinimaxSearch
  import AB = AlphaBetaSearch

  /** The leaf scores, with leaf 6 worth `last`. */
  function LeafScore(last: real, s: int): real {
    if s == 3 then 3.0 else if s == 4 then 9.0 else if s == 5 then 2.0 else if s == 6 then last else 0.0
  }

  function GameWith(last: real): Game<int, int> {
    Game(2,
         (s: int, i: nat) => if 0 <= s <= 2 then [0, 1] else [],
         (s: int, i: nat, a: int) => if s == 0 then 1 + a else if s == 1 then 3 + a else 5 + a,
         (s: int) => false,
         (s: int) => false,
         (s: int) => LeafScore(last, s))
  }

  function AgentFor(last: real): Agent<int> {
    Agent(1, ScoreEvaluation(GameWith(last)))
  }

  /** The game drawn above. */
  function TwoPly(): Game<int, int> {
    GameWith(5.0)
  }

  function OneRound(): Agent<int> {
    AgentFor(5.0)
  }

  /** Every leaf of the tree is scored by the game score. */
  lemma LeafValue(last: real, s: int)
    ensures M.Minimax(GameWith(last), AgentFor(last), s, 1, 0) == Decision(Fin(LeafScore(last, s)), None)
  {
    M.ScoreEvaluationLeaf(GameWith(last), AgentFor(last), s, 1, 0);
  }

  /** The ghost's reply at node 1 is worth 3 (it picks b0). */
  lemma GhostNodeOne()
    ensures M.Minimax(TwoPly(), OneRound(), 1, 0, 1) == Decision(Fin(3.0), Some(0))
  {
    var g, ag := TwoPly(), OneRound();
    assert NextTurn(2, Turn(0, 1)) == Turn(1, 0);
    LeafValue(5.0, 3);
    LeafValue(5.0, 4);
    var vals := M.Children(g, ag, 1, 0, 1, [0, 1]);
    assert vals[0] == M.ChildValue(g, ag, 1, 0, 1, 0) == Fin(3.0);
    assert vals[1] == M.ChildValue(g, ag, 1, 0, 1, 1) == Fin(9.0);
  }

  /** The ghost's reply at node 2 is worth 2 (it picks b0). */
  lemma GhostNodeTwo()
    ensures M.Minimax(TwoPly(), OneRound(), 2, 0, 1) == Decision(Fin(2.0), Some(0))
  {
    var g, ag := TwoPly(), OneRound();
    assert NextTurn(2, Turn(0, 1)) == Turn(1, 0);
    LeafValue(5.0, 5);
    LeafValue(5.0, 6);
    var vals := M.Children(g, ag, 2, 0, 1, [0, 1]);
    assert vals[0] == M.ChildValue(g, ag, 2, 0, 1, 0) == Fin(2.0);
    assert vals[1] == M.ChildValue(g, ag, 2, 0, 1, 1) == Fin(5.0);
  }

  /** MinimaxAgent plays a0 for a value of 3, and so does AlphaBetaAgent. */
  lemma MinimaxChoosesFirstMove()
    ensures M.Minimax(TwoPly(), OneRound(), 0, 0, 0) == Decision(Fin(3.0), Some(0))
    ensures AB.GetAction(TwoPly(), OneRound(), 0) == Some(0)
  {
    var g, ag := TwoPly(), OneRound();
    GhostNodeOne();
    GhostNodeTwo();
    var vals := M.Children(g, ag, 0, 0, 0, [0, 1]);
    assert vals[0] == M.ChildValue(g, ag, 0, 0, 0, 0) == Fin(3.0);
    assert vals[1] == M.ChildValue(g, ag, 0, 0, 0, 1) == Fin(2.0);
    AB.AgreesWithMinimax(g, ag, 0);
  }

  /** The cut: at ghost node 2 with alpha = 3, the min loop stops after the
      first leaf and returns 2 with action b0, whatever leaf 6 is worth. When
      leaf 6 is worth less than 2, plain minimax answers with leaf 6 instead,
      so the pruned loop cannot have looked at it. */
  lemma GhostNodeTwoIsCut(last: real)
    ensures AB.MinScan(GameWith(last), AgentFor(last), 2, 0, 1, [0, 1], 0, PosInf, None, Fin(3.0), PosInf)
         == Decision(Fin(2.0), Some(0))
    ensures last < 2.0 ==> M.Minimax(GameWith(last), AgentFor(last), 2, 0, 1) == Decision(Fin(last), Some(1))
  {
    var g, ag := GameWith(last), AgentFor(last);
    assert NextTurn(2, Turn(0, 1)) == Turn(1, 0);
    assert AB.AlphaBeta(g, ag, 5, 1, 0, Fin(3.0), PosInf).value == Fin(2.0);
    assert AB.ChildValue(g, ag, 2, 0, 1, 0, Fin(3.0), PosInf) == Fin(2.0);
    LeafValue(last, 5);
    LeafValue(last, 6);
    var vals := M.Children(g, ag, 2, 0, 1, [0, 1]);
    assert vals[0] == M.ChildValue(g, ag, 2, 0, 1, 0) == Fin(2.0);
    assert vals[1] == M.ChildValue(g, ag, 2, 0, 1, 1) == Fin(last);
  }

  /** The root search of AlphaBetaAgent.getAction: after the first ghost node
      (worth 3) the root's max loop moves on to ghost node 2 with alpha = 3 and
      beta = +inf, the very call GhostNodeTwoIsCut is about, and the root
      returns a0 for 3 whatever leaf 6 is worth. */
  lemma RootSearchReachesCut(last: real)
    ensures AB.AlphaBeta(GameWith(last), AgentFor(last), 0, 0, 0, NegInf, PosInf)
         == AB.MaxScan(GameWith(last), AgentFor(last), 0, 0, [0, 1], 1, Fin(3.0), Some(0), Fin(3.0), PosInf)
    ensures AB.AlphaBeta(GameWith(last), AgentFor(last), 0, 0, 0, NegInf, PosInf) == Decision(Fin(3.0), Some(0))
  {
    var g, ag := GameWith(last), AgentFor(last);
    assert NextTurn(2, Turn(0, 1)) == Turn(1, 0);
    assert AB.AlphaBeta(g, ag, 3, 1, 0, NegInf, PosInf).value == Fin(3.0);
    assert AB.ChildValue(g, ag, 1, 0, 1, 0, NegInf, PosInf) == Fin(3.0);
    assert AB.AlphaBeta(g, ag, 4, 1, 0, NegInf, Fin(3.0)).value == Fin(9.0);
    assert AB.ChildValue(g, ag, 1, 0, 1, 1, NegInf, Fin(3.0)) == Fin(9.0);
    assert AB.MinScan(g, ag, 1, 0, 1, [0, 1], 1, Fin(3.0), Some(0), NegInf, Fin(3.0)) == Decision(Fin(3.0), Some(0));
    assert AB.MinScan(g, ag, 1, 0, 1, [0, 1], 0, PosInf, None, NegInf, PosInf) == Decision(Fin(3.0), Some(0));
    assert AB.ChildValue(g, ag, 0, 0, 0, 0, NegInf, PosInf) == Fin(3.0);
    GhostNodeTwoIsCut(last);
    assert AB.ChildValue(g, ag, 0, 0, 0, 1, Fin(3.0), PosInf) == Fin(2.0);
  }
}
