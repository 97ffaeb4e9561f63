/** AlphaBetaAgent: minimax with alpha-beta pruning. The bounds alpha and
    beta travel down each call path; a max loop stops as soon as its running
    maximum is strictly above beta, a min loop as soon as its running minimum
    is strictly below alpha, and otherwise tightens its own bound before the
    next sibling. The main results: the window lemma relating every node to
    plain minimax, and agreement with MinimaxAgent at the root. */
module AlphaBetaSearch {
  import opened Values
  import opened Games
  import M = MinimaxSearch

  /** alpha_beta(gameState, depth, agentIndex, alpha, beta). */
  function AlphaBeta<S, A>(g: Game<S, A>, agent: Agent<S>, s: S, depth: nat, index: nat, alpha: Value, beta: Value): Decision<A>
    requires ValidGame(g) && depth <= agent.depth && index < g.numAgents
    decreases agent.depth - depth, g.numAgents - index, 2, 0
  {
    if Cutoff(g, agent, s, depth) then Decision(Fin(agent.evaluate(s)), None)
    else if index == 0 then MaxScan(g, agent, s, depth, g.legalActions(s, 0), 0, NegInf, None, alpha, beta)
    else MinScan(g, agent, s, depth, index, g.legalActions(s, index), 0, PosInf, None, alpha, beta)
  }

  /** The value of the successor after agent `index` plays a, searched with
      the current bounds. */
  function ChildValue<S, A>(g: Game<S, A>, agent: Agent<S>, s: S, depth: nat, index: nat, a: A, alpha: Value, beta: Value): Value
    requires ValidGame(g) && depth < agent.depth && index < g.numAgents
    decreases agent.depth - depth, g.numAgents - index, 0, 0
  {
    if index == 0 then AlphaBeta(g, agent, g.successor(s, 0, a), depth, 1, alpha, beta).value
    else
      var next := NextTurn(g.numAgents, Turn(depth, index));
      AlphaBeta(g, agent, g.successor(s, index, a), next.depth, next.agent, alpha, beta).value
  }

  /** The max_value loop from action k on, with running maximum v, its action
      best and the current alpha. */
  function MaxScan<S, A>(g: Game<S, A>, agent: Agent<S>, s: S, depth: nat, actions: seq<A>, k: nat,
                         v: Value, best: Option<A>, alpha: Value, beta: Value): Decision<A>
    requires ValidGame(g) && depth < agent.depth && k <= |actions|
    decreases agent.depth - depth, g.numAgents, 1, |actions| - k
  {
    if k == |actions| then Decision(v, best)
    else
      var value := ChildValue(g, agent, s, depth, 0, actions[k], alpha, beta);
      var v', best' := if Less(v, value) then value else v, if Less(v, value) then Some(actions[k]) else best;
      if Less(beta, v') then Decision(v', best')
      else MaxScan(g, agent, s, depth, actions, k + 1, v', best', Max(alpha, v'), beta)
  }

  /** The min_value loop from action k on, with running minimum v, its action
      best and the current beta. */
  function MinScan<S, A>(g: Game<S, A>, agent: Agent<S>, s: S, depth: nat, index: nat, actions: seq<A>, k: nat,
                         v: Value, best: Option<A>, alpha: Value, beta: Value): Decision<A>
    requires ValidGame(g) && depth < agent.depth && index < g.numAgents && k <= |actions|
    decreases agent.depth - depth, g.numAgents - index, 1, |actions| - k
  {
    if k == |actions| then Decision(v, best)
    else
      var value := ChildValue(g, agent, s, depth, index, actions[k], alpha, beta);
      var v', best' := if Less(value, v) then value else v, if Less(value, v) then Some(actions[k]) else best;
      if Less(v', alpha) then Decision(v', best')
      else MinScan(g, agent, s, depth, index, actions, k + 1, v', best', alpha, Min(beta, v'))
  }

  /** getAction: the root is searched as agent 0 at depth 0 with the window
      (-inf, +inf). */
  function GetAction<S, A>(g: Game<S, A>, agent: Agent<S>, s: S): Option<A>
    requires ValidGame(g)
  {
    AlphaBeta(g, agent, s, 0, 0, NegInf, PosInf).action
  }

  /** Cutoff: a won or lost state, or the depth limit, is scored by the
      evaluation function and yields no action, whatever the window. */
  lemma CutoffRule<S, A>(g: Game<S, A>, agent: Agent<S>, s: S, depth: nat, index: nat, alpha: Value, beta: Value)
    requires ValidGame(g) && depth <= agent.depth && index < g.numAgents
    requires Cutoff(g, agent, s, depth)
    ensures AlphaBeta(g, agent, s, depth, index, alpha, beta) == Decision(Fin(agent.evaluate(s)), None)
  {
  }

  /** How a search with window [alpha, beta] may answer r where minimax says m:
      exactly m inside the window; strictly below alpha but no lower than m
      when m is below the window; strictly above beta but no higher than m
      when m is above it. */
  ghost predicate Window(m: Value, r: Value, alpha: Value, beta: Value) {
    && (Le(alpha, m) && Le(m, beta) ==> r == m)
    && (Less(m, alpha) ==> Le(m, r) && Less(r, alpha))
    && (Less(beta, m) ==> Less(beta, r) && Le(r, m))
  }

  /** The window lemma: for alpha <= beta, every node's alpha-beta value
      stands in the Window relation to its minimax value. */
  lemma {:induction false} AlphaBetaWindow<S, A>(g: Game<S, A>, agent: Agent<S>, s: S, depth: nat, index: nat, alpha: Value, beta: Value)
    requires ValidGame(g) && depth <= agent.depth && index < g.numAgents
    requires Le(alpha, beta)
    ensures Window(M.Minimax(g, agent, s, depth, index).value, AlphaBeta(g, agent, s, depth, index, alpha, beta).value, alpha, beta)
    decreases agent.depth - depth, g.numAgents - index, 2, 0
  {
    if !Cutoff(g, agent, s, depth) {
      if index == 0 {
        MaxScanWindow(g, agent, s, depth, g.legalActions(s, 0), 0, NegInf, None, alpha, beta, NegInf, None);
      } else {
        MinScanWindow(g, agent, s, depth, index, g.legalActions(s, index), 0, PosInf, None, alpha, beta, PosInf, None);
      }
    }
  }

  /** The loop invariant behind the window lemma at a max node: the pruned
      loop's running maximum v equals minimax's running maximum mv once that
      reaches alpha, and otherwise lies between mv and alpha; alpha itself is
      the larger of its initial value and v. */
  lemma {:induction false} MaxScanWindow<S, A>(g: Game<S, A>, agent: Agent<S>, s: S, depth: nat, actions: seq<A>, k: nat,
                                               v: Value, best: Option<A>, alpha0: Value, beta: Value, mv: Value, mbest: Option<A>)
    requires ValidGame(g) && depth < agent.depth && k <= |actions|
    requires Le(alpha0, beta) && Le(v, beta)
    requires (Less(mv, alpha0) && Le(mv, v) && Less(v, alpha0)) || (Le(alpha0, mv) && v == mv)
    ensures Window(PickMax(M.Children(g, agent, s, depth, 0, actions), actions, k, mv, mbest).value,
                   MaxScan(g, agent, s, depth, actions, k, v, best, Max(alpha0, v), beta).value, alpha0, beta)
    decreases agent.depth - depth, g.numAgents, 1, |actions| - k
  {
    var mvals := M.Children(g, agent, s, depth, 0, actions);
    if k < |actions| {
      var alpha := Max(alpha0, v);
      var c := mvals[k];
      assert c == M.ChildValue(g, agent, s, depth, 0, actions[k]);
      var rc := ChildValue(g, agent, s, depth, 0, actions[k], alpha, beta);
      AlphaBetaWindow(g, agent, g.successor(s, 0, actions[k]), depth, 1, alpha, beta);
      var v', best' := if Less(v, rc) then rc else v, if Less(v, rc) then Some(actions[k]) else best;
      var mv', mbest' := if Less(mv, c) then c else mv, if Less(mv, c) then Some(actions[k]) else mbest;
      MaxStep(alpha0, beta, v, mv, c, rc);
      PickMaxScan(mvals, actions, k + 1, mv', mbest');
      if !Less(beta, v') {
        MaxScanWindow(g, agent, s, depth, actions, k + 1, v', best', alpha0, beta, mv', mbest');
      }
    }
  }

  /** One iteration of MaxScanWindow on values alone: from the invariant and
      the child's window relation, either the loop exits with a value above
      beta but no higher than the child's minimax value, or the invariant
      holds again and alpha is still the larger of alpha0 and v. */
  lemma MaxStep(alpha0: Value, beta: Value, v: Value, mv: Value, c: Value, rc: Value)
    requires Le(alpha0, beta) && Le(v, beta)
    requires (Less(mv, alpha0) && Le(mv, v) && Less(v, alpha0)) || (Le(alpha0, mv) && v == mv)
    requires Window(c, rc, Max(alpha0, v), beta)
    ensures var v', mv' := (if Less(v, rc) then rc else v), (if Less(mv, c) then c else mv);
      && (Less(beta, v') ==> Less(beta, c) && Le(v', c))
      && (!Less(beta, v') ==>
            && Max(Max(alpha0, v), v') == Max(alpha0, v')
            && ((Less(mv', alpha0) && Le(mv', v') && Less(v', alpha0)) || (Le(alpha0, mv') && v' == mv')))
  {
    var v' := if Less(v, rc) then rc else v;
    LeAntisymmetric(Max(Max(alpha0, v), v'), Max(alpha0, v'));
  }

  /** The mirror image of MaxScanWindow at a min node. */
  lemma {:induction false} MinScanWindow<S, A>(g: Game<S, A>, agent: Agent<S>, s: S, depth: nat, index: nat, actions: seq<A>, k: nat,
                                               v: Value, best: Option<A>, alpha: Value, beta0: Value, mv: Value, mbest: Option<A>)
    requires ValidGame(g) && depth < agent.depth && 0 < index < g.numAgents && k <= |actions|
    requires Le(alpha, beta0) && Le(alpha, v)
    requires (Less(beta0, mv) && Le(v, mv) && Less(beta0, v)) || (Le(mv, beta0) && v == mv)
    ensures Window(PickMin(M.Children(g, agent, s, depth, index, actions), actions, k, mv, mbest).value,
                   MinScan(g, agent, s, depth, index, actions, k, v, best, alpha, Min(beta0, v)).value, alpha, beta0)
    decreases agent.depth - depth, g.numAgents - index, 1, |actions| - k
  {
    var mvals := M.Children(g, agent, s, depth, index, actions);
    if k < |actions| {
      var beta := Min(beta0, v);
      var c := mvals[k];
      assert c == M.ChildValue(g, agent, s, depth, index, actions[k]);
      var rc := ChildValue(g, agent, s, depth, index, actions[k], alpha, beta);
      var next := NextTurn(g.numAgents, Turn(depth, index));
      var t := g.successor(s, index, actions[k]);
      assert c == M.Minimax(g, agent, t, next.depth, next.agent).value;
      assert rc == AlphaBeta(g, agent, t, next.depth, next.agent, alpha, beta).value;
      AlphaBetaWindow(g, agent, t, next.depth, next.agent, alpha, beta);
      var v', best' := if Less(rc, v) then rc else v, if Less(rc, v) then Some(actions[k]) else best;
      var mv', mbest' := if Less(c, mv) then c else mv, if Less(c, mv) then Some(actions[k]) else mbest;
      MinStep(alpha, beta0, v, mv, c, rc);
      PickMinScan(mvals, actions, k + 1, mv', mbest');
      if !Less(v', alpha) {
        MinScanWindow(g, agent, s, depth, index, actions, k + 1, v', best', alpha, beta0, mv', mbest');
      }
    }
  }

  /** One iteration of MinScanWindow on values alone: the mirror image of
      MaxStep. */
  lemma MinStep(alpha: Value, beta0: Value, v: Value, mv: Value, c: Value, rc: Value)
    requires Le(alpha, beta0) && Le(alpha, v)
    requires (Less(beta0, mv) && Le(v, mv) && Less(beta0, v)) || (Le(mv, beta0) && v == mv)
    requires Window(c, rc, alpha, Min(beta0, v))
    ensures var v', mv' := (if Less(rc, v) then rc else v), (if Less(c, mv) then c else mv);
      && (Less(v', alpha) ==> Less(c, alpha) && Le(c, v'))
      && (!Less(v', alpha) ==>
            && Min(Min(beta0, v), v') == Min(beta0, v')
            && ((Less(beta0, mv') && Le(v', mv') && Less(beta0, v')) || (Le(mv', beta0) && v' == mv')))
  {
    var v' := if Less(rc, v) then rc else v;
    LeAntisymmetric(Min(Min(beta0, v), v'), Min(beta0, v'));
  }

  /** With the full window (-inf, +inf) every node's alpha-beta value is its
      minimax value. */
  lemma FullWindowValue<S, A>(g: Game<S, A>, agent: Agent<S>, s: S, depth: nat, index: nat)
    requires ValidGame(g) && depth <= agent.depth && index < g.numAgents
    ensures AlphaBeta(g, agent, s, depth, index, NegInf, PosInf).value == M.Minimax(g, agent, s, depth, index).value
  {
    AlphaBetaWindow(g, agent, s, depth, index, NegInf, PosInf);
  }

  /** At a max node searched with beta = +inf and alpha equal to the running
      maximum, the pruned loop makes exactly the updates of the plain loop:
      same value, same action. */
  lemma {:induction false} RootScanAgrees<S, A>(g: Game<S, A>, agent: Agent<S>, s: S, depth: nat, actions: seq<A>, k: nat,
                                                v: Value, best: Option<A>)
    requires ValidGame(g) && depth < agent.depth && k <= |actions|
    ensures MaxScan(g, agent, s, depth, actions, k, v, best, v, PosInf)
         == PickMax(M.Children(g, agent, s, depth, 0, actions), actions, k, v, best)
    decreases |actions| - k
  {
    if k < |actions| {
      var mvals := M.Children(g, agent, s, depth, 0, actions);
      assert mvals[k] == M.ChildValue(g, agent, s, depth, 0, actions[k]);
      AlphaBetaWindow(g, agent, g.successor(s, 0, actions[k]), depth, 1, v, PosInf);
      if Less(v, mvals[k]) {
        RootScanAgrees(g, agent, s, depth, actions, k + 1, mvals[k], Some(actions[k]));
      } else {
        RootScanAgrees(g, agent, s, depth, actions, k + 1, v, best);
      }
    }
  }

  /** AlphaBetaAgent returns "the minimax action": the same root decision,
      value and action, as MinimaxAgent with the same depth and evaluation
      function. */
  lemma AgreesWithMinimax<S, A>(g: Game<S, A>, agent: Agent<S>, s: S)
    requires ValidGame(g)
    ensures AlphaBeta(g, agent, s, 0, 0, NegInf, PosInf) == M.Minimax(g, agent, s, 0, 0)
    ensures GetAction(g, agent, s) == M.GetAction(g, agent, s)
  {
    if !Cutoff(g, agent, s, 0) {
      RootScanAgrees(g, agent, s, 0, g.legalActions(s, 0), 0, NegInf, None);
    }
  }

  /** alpha_beta, as the recursion the agent runs. */
  method AlphaBetaNode<S, A>(g: Game<S, A>, agent: Agent<S>, s: S, depth: nat, index: nat, alpha: Value, beta: Value) returns (r: Decision<A>)
    requires ValidGame(g) && depth <= agent.depth && index < g.numAgents
    ensures r == AlphaBeta(g, agent, s, depth, index, alpha, beta)
    decreases agent.depth - depth, g.numAgents - index, 2
  {
    if g.isWin(s) || g.isLose(s) || depth == agent.depth {
      return Decision(Fin(agent.evaluate(s)), None);
    }
    if index == 0 {
      r := MaxValue(g, agent, s, depth, alpha, beta);
    } else {
      r := MinValue(g, agent, s, depth, index, alpha, beta);
    }
  }

  /** max_value with the beta cutoff and the alpha update. */
  method MaxValue<S, A>(g: Game<S, A>, agent: Agent<S>, s: S, depth: nat, alpha: Value, beta: Value) returns (r: Decision<A>)
    requires ValidGame(g) && depth < agent.depth
    ensures r == MaxScan(g, agent, s, depth, g.legalActions(s, 0), 0, NegInf, None, alpha, beta)
    decreases agent.depth - depth, g.numAgents, 1
  {
    var actions := g.legalActions(s, 0);
    var v: Value, best: Option<A> := NegInf, None;
    var a := alpha;
    for k := 0 to |actions|
      invariant MaxScan(g, agent, s, depth, actions, k, v, best, a, beta)
             == MaxScan(g, agent, s, depth, actions, 0, NegInf, None, alpha, beta)
    {
      var successor := g.successor(s, 0, actions[k]);
      var child := AlphaBetaNode(g, agent, successor, depth, 1, a, beta);
      assert child.value == ChildValue(g, agent, s, depth, 0, actions[k], a, beta);
      if Less(v, child.value) {
        v, best := child.value, Some(actions[k]);
      }
      if Less(beta, v) {
        return Decision(v, best);
      }
      a := Max(a, v);
    }
    r := Decision(v, best);
  }

  /** min_value with the alpha cutoff and the beta update. */
  method MinValue<S, A>(g: Game<S, A>, agent: Agent<S>, s: S, depth: nat, index: nat, alpha: Value, beta: Value) returns (r: Decision<A>)
    requires ValidGame(g) && depth < agent.depth && 0 < index < g.numAgents
    ensures r == MinScan(g, agent, s, depth, index, g.legalActions(s, index), 0, PosInf, None, alpha, beta)
    decreases agent.depth - depth, g.numAgents - index, 1
  {
    var actions := g.legalActions(s, index);
    var v: Value, best: Option<A> := PosInf, None;
    var b := beta;
    for k := 0 to |actions|
      invariant MinScan(g, agent, s, depth, index, actions, k, v, best, alpha, b)
             == MinScan(g, agent, s, depth, index, actions, 0, PosInf, None, alpha, beta)
    {
      var successor := g.successor(s, index, actions[k]);
      var child;
      if index == g.numAgents - 1 {
        child := AlphaBetaNode(g, agent, successor, depth + 1, 0, alpha, b);
        assert NextTurn(g.numAgents, Turn(depth, index)) == Turn(depth + 1, 0);
      } else {
        child := AlphaBetaNode(g, agent, successor, depth, index + 1, alpha, b);
        assert NextTurn(g.numAgents, Turn(depth, index)) == Turn(depth, index + 1);
      }
      assert child.value == ChildValue(g, agent, s, depth, index, actions[k], alpha, b);
      if Less(child.value, v) {
        v, best := child.value, Some(actions[k]);
      }
      if Less(v, alpha) {
        return Decision(v, best);
      }
      b := Min(b, v);
    }
    r := Decision(v, best);
  }
}
