/** MinimaxAgent: plain depth-limited minimax. Pacman (agent 0) takes the
    first action of maximal value, each ghost the first action of minimal
    value. The functions are the specification; the methods are the loops of
    max_value and min_value, proved to compute them. */
module MinimaxSearch {
  import opened Values
  import opened Games

  /** minimax(gameState, depth, agentIndex). */
  function Minimax<S, A>(g: Game<S, A>, agent: Agent<S>, s: S, depth: nat, index: nat): Decision<A>
    requires ValidGame(g) && depth <= agent.depth && index < g.numAgents
    decreases agent.depth - depth, g.numAgents - index, 2
  {
    if Cutoff(g, agent, s, depth) then Decision(Fin(agent.evaluate(s)), None)
    else if index == 0 then
      var actions := g.legalActions(s, 0);
      PickMax(Children(g, agent, s, depth, 0, actions), actions, 0, NegInf, None)
    else
      var actions := g.legalActions(s, index);
      PickMin(Children(g, agent, s, depth, index, actions), actions, 0, PosInf, None)
  }

  /** The backed-up values of the successors, one per action, in order. */
  function Children<S, A>(g: Game<S, A>, agent: Agent<S>, s: S, depth: nat, index: nat, actions: seq<A>): (vals: seq<Value>)
    requires ValidGame(g) && depth < agent.depth && index < g.numAgents
    ensures |vals| == |actions|
    decreases agent.depth - depth, g.numAgents - index, 1
  {
    seq(|actions|, j requires 0 <= j < |actions| => ChildValue(g, agent, s, depth, index, actions[j]))
  }

  /** The value of the successor after agent `index` plays action a. Pacman
      always hands over to agent 1 at the same depth; the ghosts follow
      NextTurn. */
  function ChildValue<S, A>(g: Game<S, A>, agent: Agent<S>, s: S, depth: nat, index: nat, a: A): Value
    requires ValidGame(g) && depth < agent.depth && index < g.numAgents
    decreases agent.depth - depth, g.numAgents - index, 0
  {
    if index == 0 then Minimax(g, agent, g.successor(s, 0, a), depth, 1).value
    else
      var next := NextTurn(g.numAgents, Turn(depth, index));
      Minimax(g, agent, g.successor(s, index, a), next.depth, next.agent).value
  }

  /** getAction: the action chosen at the root, searched from depth 0 as
      agent 0. */
  function GetAction<S, A>(g: Game<S, A>, agent: Agent<S>, s: S): Option<A>
    requires ValidGame(g)
  {
    Minimax(g, agent, s, 0, 0).action
  }

  /** Cutoff: a won or lost state, or the depth limit, is scored by the
      evaluation function and yields no action, whatever its successors. */
  lemma CutoffRule<S, A>(g: Game<S, A>, agent: Agent<S>, s: S, depth: nat, index: nat)
    requires ValidGame(g) && depth <= agent.depth && index < g.numAgents
    requires Cutoff(g, agent, s, depth)
    ensures Minimax(g, agent, s, depth, index) == Decision(Fin(agent.evaluate(s)), None)
  {
  }

  /** With scoreEvaluationFunction as the evaluation, a state the search
      stops at is worth its game score. */
  lemma ScoreEvaluationLeaf<S, A>(g: Game<S, A>, agent: Agent<S>, s: S, depth: nat, index: nat)
    requires ValidGame(g) && depth <= agent.depth && index < g.numAgents
    requires agent.evaluate == ScoreEvaluation(g) && Cutoff(g, agent, s, depth)
    ensures Minimax(g, agent, s, depth, index).value == Fin(g.score(s))
  {
  }

  /** A root that is won or lost, or an agent with depth 0, returns no action. */
  lemma CutoffRootHasNoAction<S, A>(g: Game<S, A>, agent: Agent<S>, s: S)
    requires ValidGame(g)
    requires g.isWin(s) || g.isLose(s) || agent.depth == 0
    ensures GetAction(g, agent, s) == None
  {
  }

  /** Max rule: at Pacman's turn the value is the maximum of the successor
      values (-inf with no legal action), and the action is the first one
      attaining it; no action at all when every successor is worth -inf. */
  lemma MaxRule<S, A>(g: Game<S, A>, agent: Agent<S>, s: S, depth: nat)
    requires ValidGame(g) && depth <= agent.depth && !Cutoff(g, agent, s, depth)
    ensures var actions := g.legalActions(s, 0);
      FirstMax(Children(g, agent, s, depth, 0, actions), actions, Minimax(g, agent, s, depth, 0))
  {
    var actions := g.legalActions(s, 0);
    PickMaxIsFirstMax(Children(g, agent, s, depth, 0, actions), actions);
  }

  /** Min rule: at a ghost's turn the value is the minimum of the successor
      values (+inf with no legal action), and the action is the first one
      attaining it; no action at all when every successor is worth +inf. */
  lemma MinRule<S, A>(g: Game<S, A>, agent: Agent<S>, s: S, depth: nat, index: nat)
    requires ValidGame(g) && depth <= agent.depth && 0 < index < g.numAgents
    requires !Cutoff(g, agent, s, depth)
    ensures var actions := g.legalActions(s, index);
      FirstMin(Children(g, agent, s, depth, index, actions), actions, Minimax(g, agent, s, depth, index))
  {
    var actions := g.legalActions(s, index);
    PickMinIsFirstMin(Children(g, agent, s, depth, index, actions), actions);
  }

  /** minimax, as the recursion the agent runs. */
  method MinimaxNode<S, A>(g: Game<S, A>, agent: Agent<S>, s: S, depth: nat, index: nat) returns (r: Decision<A>)
    requires ValidGame(g) && depth <= agent.depth && index < g.numAgents
    ensures r == Minimax(g, agent, s, depth, index)
    decreases agent.depth - depth, g.numAgents - index, 2
  {
    if g.isWin(s) || g.isLose(s) || depth == agent.depth {
      return Decision(Fin(agent.evaluate(s)), None);
    }
    if index == 0 {
      r := MaxValue(g, agent, s, depth);
    } else {
      r := MinValue(g, agent, s, depth, index);
    }
  }

  /** max_value: the loop over Pacman's legal actions. */
  method MaxValue<S, A>(g: Game<S, A>, agent: Agent<S>, s: S, depth: nat) returns (r: Decision<A>)
    requires ValidGame(g) && depth < agent.depth
    ensures var actions := g.legalActions(s, 0);
      r == PickMax(Children(g, agent, s, depth, 0, actions), actions, 0, NegInf, None)
    decreases agent.depth - depth, g.numAgents, 1
  {
    var actions := g.legalActions(s, 0);
    ghost var vals := Children(g, agent, s, depth, 0, actions);
    var v: Value, best: Option<A> := NegInf, None;
    for k := 0 to |actions|
      invariant PickMax(vals, actions, k, v, best) == PickMax(vals, actions, 0, NegInf, None)
    {
      var successor := g.successor(s, 0, actions[k]);
      var child := MinimaxNode(g, agent, successor, depth, 1);
      assert child.value == vals[k] == ChildValue(g, agent, s, depth, 0, actions[k]);
      if Less(v, child.value) {
        v, best := child.value, Some(actions[k]);
      }
    }
    r := Decision(v, best);
  }

  /** min_value: the loop over a ghost's legal actions. */
  method MinValue<S, A>(g: Game<S, A>, agent: Agent<S>, s: S, depth: nat, index: nat) returns (r: Decision<A>)
    requires ValidGame(g) && depth < agent.depth && 0 < index < g.numAgents
    ensures var actions := g.legalActions(s, index);
      r == PickMin(Children(g, agent, s, depth, index, actions), actions, 0, PosInf, None)
    decreases agent.depth - depth, g.numAgents - index, 1
  {
    var actions := g.legalActions(s, index);
    ghost var vals := Children(g, agent, s, depth, index, actions);
    var v: Value, best: Option<A> := PosInf, None;
    for k := 0 to |actions|
      invariant PickMin(vals, actions, k, v, best) == PickMin(vals, actions, 0, PosInf, None)
    {
      var successor := g.successor(s, index, actions[k]);
      var child;
      if index == g.numAgents - 1 {
        child := MinimaxNode(g, agent, successor, depth + 1, 0);
        assert NextTurn(g.numAgents, Turn(depth, index)) == Turn(depth + 1, 0);
      } else {
        child := MinimaxNode(g, agent, successor, depth, index + 1);
        assert NextTurn(g.numAgents, Turn(depth, index)) == Turn(depth, index + 1);
      }
      assert vals[k] == ChildValue(g, agent, s, depth, index, actions[k]);
      assert child.value == ChildValue(g, agent, s, depth, index, actions[k]);
      if Less(child.value, v) {
        v, best := child.value, Some(actions[k]);
      }
    }
    r := Decision(v, best);
  }
}
