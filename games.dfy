/** The game as the searches see it, the agent's fixed configuration, and
    the turn order: agents move in index order and the depth counter goes up
    by one each time control wraps around to Pacman (agent 0). */
module Games {

  /** The read-only state interface the searches consume. States are
      immutable values; every query is a deterministic function of the state.
      The number of agents is the same in every state of one game. */
  datatype Game<!S, !A> = Game(
    numAgents: nat,
    legalActions: (S, nat) -> seq<A>,
    successor: (S, nat, A) -> S,
    isWin: S -> bool,
    isLose: S -> bool,
    score: S -> real)

  /** A search agent: it always plays as agent 0, searches `depth` full
      rounds and scores the states it stops at with `evaluate`. */
  datatype Agent<!S> = Agent(depth: nat, evaluate: S -> real)

  /** Pacman's move is always followed by agent 1's, so a game needs at least
      one ghost. */
  predicate ValidGame<S, A>(g: Game<S, A>) {
    g.numAgents >= 2
  }

  /** The one leaf test of all three searches: a won or lost state, or the
      depth limit. */
  predicate Cutoff<S, A>(g: Game<S, A>, agent: Agent<S>, s: S, depth: nat) {
    g.isWin(s) || g.isLose(s) || depth == agent.depth
  }

  /** The scoreEvaluationFunction: a state is worth its game score. */
  function ScoreEvaluation<S, A>(g: Game<S, A>): S -> real {
    g.score
  }

  /** The point of the recursion a successor is searched at. */
  datatype Turn = Turn(depth: nat, agent: nat)

  /** Who moves after agent t.agent: the next agent at the same depth, except
      that after the last ghost it is Pacman again one round deeper. */
  function NextTurn(n: nat, t: Turn): Turn
    requires t.agent < n
  {
    if t.agent == n - 1 then Turn(t.depth + 1, 0) else Turn(t.depth, t.agent + 1)
  }

  /** NextTurn stays in range and makes lexicographic progress on
      (depth, agent), so the searches terminate below a depth limit. */
  lemma NextTurnProgress(n: nat, t: Turn)
    requires t.agent < n
    ensures NextTurn(n, t).agent < n
    ensures NextTurn(n, t).depth == t.depth + 1 || (NextTurn(n, t).depth == t.depth && NextTurn(n, t).agent > t.agent)
    ensures NextTurn(n, t).depth == t.depth + 1 <==> t.agent == n - 1
    ensures NextTurn(n, t) == Turn(t.depth + (t.agent + 1) / n, (t.agent + 1) % n)
  {
    if t.agent == n - 1 {
      assert (t.agent + 1) / n == 1 && (t.agent + 1) % n == 0;
    } else {
      assert (t.agent + 1) / n == 0 && (t.agent + 1) % n == t.agent + 1;
    }
  }

  /** Pacman's move always passes to agent 1 at the same depth, which is the
      hand-over the max loops make directly; so the round counting of
      DepthCountsRounds describes the searches' own recursion. */
  lemma PacmanHandsToFirstGhost<S, A>(g: Game<S, A>, d: nat)
    requires ValidGame(g)
    ensures NextTurn(g.numAgents, Turn(d, 0)) == Turn(d, 1)
  {
  }

  /** The turn reached after k moves starting at turn t. */
  function Advance(n: nat, t: Turn, k: nat): Turn
    requires t.agent < n
    ensures Advance(n, t, k).agent < n
  {
    if k == 0 then t else NextTurn(n, Advance(n, t, k - 1))
  }

  lemma {:induction false} AdvanceAdd(n: nat, t: Turn, a: nat, b: nat)
    requires t.agent < n
    ensures Advance(n, t, a + b) == Advance(n, Advance(n, t, a), b)
  {
    if b > 0 {
      AdvanceAdd(n, t, a, b - 1);
    }
  }

  /** Within a round the depth stays put and the agents follow in order. */
  lemma {:induction false} AdvanceWithinRound(n: nat, d: nat, r: nat)
    requires r < n
    ensures Advance(n, Turn(d, 0), r) == Turn(d, r)
  {
    if r > 0 {
      AdvanceWithinRound(n, d, r - 1);
    }
  }

  /** The depth counts full rounds: q rounds plus r single moves from Pacman's
      turn at depth d lead to agent r at depth d + q. */
  lemma {:induction false} DepthCountsRounds(n: nat, d: nat, q: nat, r: nat)
    requires r < n
    ensures Advance(n, Turn(d, 0), q * n + r) == Turn(d + q, r)
    decreases q
  {
    if q == 0 {
      AdvanceWithinRound(n, d, r);
    } else {
      AdvanceWithinRound(n, d, n - 1);
      assert Advance(n, Turn(d, 0), n) == Turn(d + 1, 0);
      assert q * n + r == n + ((q - 1) * n + r);
      AdvanceAdd(n, Turn(d, 0), n, (q - 1) * n + r);
      DepthCountsRounds(n, d + 1, q - 1, r);
    }
  }
}
