/** ExpectimaxAgent: Pacman maximises as in minimax; every ghost is a chance
    node that picks each of its legal actions with probability 1/len(actions),
    so its value is the average of its successors' values. A chance node with
    no legal action divides by zero; the exception aborts the whole search,
    which the model carries as the outcome DivisionByZero. */
module ExpectimaxSearch {
  import opened Values
  import opened Games

  datatype Outcome<A> = Done(decision: Decision<A>) | DivisionByZero

  /** What getAction yields: the root's action, or the aborted search. */
  datatype Choice<A> = Move(action: Option<A>) | Aborted

  /** expectimax(gameState, depth, agentIndex). */
  function Expectimax<S, A>(g: Game<S, A>, agent: Agent<S>, s: S, depth: nat, index: nat): Outcome<A>
    requires ValidGame(g) && depth <= agent.depth && index < g.numAgents
    decreases agent.depth - depth, g.numAgents - index, 2
  {
    if Cutoff(g, agent, s, depth) then Done(Decision(Fin(agent.evaluate(s)), None))
    else if index == 0 then
      var actions := g.legalActions(s, 0);
      MaxRule(Children(g, agent, s, depth, 0, actions), actions)
    else
      ChanceRule(Children(g, agent, s, depth, index, g.legalActions(s, index)))
  }

  /** The outcomes of searching the successors, one per action, in order. */
  function Children<S, A>(g: Game<S, A>, agent: Agent<S>, s: S, depth: nat, index: nat, actions: seq<A>): (outs: seq<Outcome<A>>)
    requires ValidGame(g) && depth < agent.depth && index < g.numAgents
    ensures |outs| == |actions|
    decreases agent.depth - depth, g.numAgents - index, 1
  {
    seq(|actions|, j requires 0 <= j < |actions| => Child(g, agent, s, depth, index, actions[j]))
  }

  /** The outcome of the successor after agent `index` plays a: Pacman hands
      over to agent 1 at the same depth, the ghosts follow NextTurn. */
  function Child<S, A>(g: Game<S, A>, agent: Agent<S>, s: S, depth: nat, index: nat, a: A): Outcome<A>
    requires ValidGame(g) && depth < agent.depth && index < g.numAgents
    decreases agent.depth - depth, g.numAgents - index, 0
  {
    if index == 0 then Expectimax(g, agent, g.successor(s, 0, a), depth, 1)
    else
      var next := NextTurn(g.numAgents, Turn(depth, index));
      Expectimax(g, agent, g.successor(s, index, a), next.depth, next.agent)
  }

  predicate Failed<A>(outs: seq<Outcome<A>>) {
    exists j :: 0 <= j < |outs| && outs[j].DivisionByZero?
  }

  /** The value of an outcome, -inf standing in for a failed one. */
  function ValueOf<A>(o: Outcome<A>): Value {
    if o.Done? then o.decision.value else NegInf
  }

  function ValuesOf<A>(outs: seq<Outcome<A>>): (vals: seq<Value>)
    ensures |vals| == |outs|
  {
    seq(|outs|, j requires 0 <= j < |outs| => ValueOf(outs[j]))
  }

  /** max_value on the successor outcomes: any failure aborts, otherwise the
      first action of maximal value. */
  function MaxRule<A>(outs: seq<Outcome<A>>, actions: seq<A>): Outcome<A>
    requires |outs| == |actions|
  {
    if Failed(outs) then DivisionByZero else Done(PickMax(ValuesOf(outs), actions, 0, NegInf, None))
  }

  /** exp_value on the successor outcomes: no action divides by zero, any
      failure aborts, otherwise v accumulates p * value from 0 with
      p = 1 / len(actions), and no action is returned. */
  function ChanceRule<A>(outs: seq<Outcome<A>>): Outcome<A> {
    if |outs| == 0 || Failed(outs) then DivisionByZero
    else Done(Decision(Accumulate(ValuesOf(outs), 0, 1.0 / (|outs| as real), Fin(0.0)), None))
  }

  /** getAction: the action chosen at the root, or the error. */
  function GetAction<S, A>(g: Game<S, A>, agent: Agent<S>, s: S): Choice<A>
    requires ValidGame(g)
  {
    match Expectimax(g, agent, s, 0, 0)
    case Done(d) => Move(d.action)
    case DivisionByZero => Aborted
  }

  /** Cutoff: a won or lost state, or the depth limit, is scored by the
      evaluation function without touching its successors. */
  lemma CutoffRule<S, A>(g: Game<S, A>, agent: Agent<S>, s: S, depth: nat, index: nat)
    requires ValidGame(g) && depth <= agent.depth && index < g.numAgents
    requires Cutoff(g, agent, s, depth)
    ensures Expectimax(g, agent, s, depth, index) == Done(Decision(Fin(agent.evaluate(s)), None))
  {
  }

  /** Max rule: the search fails exactly when some successor's does;
      otherwise the value is the maximum of the successor values and the
      action is the first one attaining it. */
  lemma MaxNode<S, A>(g: Game<S, A>, agent: Agent<S>, s: S, depth: nat)
    requires ValidGame(g) && depth <= agent.depth && !Cutoff(g, agent, s, depth)
    ensures var actions := g.legalActions(s, 0);
      var outs := Children(g, agent, s, depth, 0, actions);
      var r := Expectimax(g, agent, s, depth, 0);
      && (r.DivisionByZero? <==> Failed(outs))
      && (r.Done? ==> FirstMax(ValuesOf(outs), actions, r.decision))
  {
    var actions := g.legalActions(s, 0);
    PickMaxIsFirstMax(ValuesOf(Children(g, agent, s, depth, 0, actions)), actions);
  }

  /** Chance rule: with finite successor values the value is exactly their
      arithmetic mean and there is no action; a successor worth -inf makes
      the node worth -inf; no legal action, or a failing successor, fails. */
  lemma ChanceNode<S, A>(g: Game<S, A>, agent: Agent<S>, s: S, depth: nat, index: nat)
    requires ValidGame(g) && depth <= agent.depth && 0 < index < g.numAgents && !Cutoff(g, agent, s, depth)
    ensures var actions := g.legalActions(s, index);
      var outs := Children(g, agent, s, depth, index, actions);
      var r := Expectimax(g, agent, s, depth, index);
      && (r.DivisionByZero? <==> |actions| == 0 || Failed(outs))
      && (r.Done? ==> r.decision.action == None)
      && (r.Done? && AllFinite(ValuesOf(outs)) ==>
            r.decision.value == Fin(RealSum(ValuesOf(outs), 0) / (|actions| as real)))
      && (r.Done? && (exists j :: 0 <= j < |outs| && ValueOf(outs[j]).NegInf?) ==> r.decision.value == NegInf)
  {
    var actions := g.legalActions(s, index);
    var outs := Children(g, agent, s, depth, index, actions);
    var vals := ValuesOf(outs);
    if |actions| > 0 && !Failed(outs) {
      var n := |actions| as real;
      if AllFinite(vals) {
        AccumulateFinite(vals, 0, 1.0 / n, Fin(0.0));
        assert 0.0 + (1.0 / n) * RealSum(vals, 0) == RealSum(vals, 0) / n;
      }
      if exists j :: 0 <= j < |outs| && ValueOf(outs[j]).NegInf? {
        var j :| 0 <= j < |outs| && ValueOf(outs[j]).NegInf?;
        assert vals[j].NegInf?;
        AccumulateNegInf(vals, 0, 1.0 / n, Fin(0.0));
      }
    }
  }

  /** getAction at a root that is not a leaf: it aborts exactly when some
      successor's search does; otherwise it is the first of Pacman's actions
      whose successor value is maximal (None only when all are -inf). */
  lemma RootChoice<S, A>(g: Game<S, A>, agent: Agent<S>, s: S)
    requires ValidGame(g) && !Cutoff(g, agent, s, 0)
    ensures var actions := g.legalActions(s, 0);
      var outs := Children(g, agent, s, 0, 0, actions);
      var r := GetAction(g, agent, s);
      && (r.Aborted? <==> Failed(outs))
      && (r.Move? ==> exists v :: FirstMax(ValuesOf(outs), actions, Decision(v, r.action)))
  {
    MaxNode(g, agent, s, 0);
    var r := Expectimax(g, agent, s, 0, 0);
    if r.Done? {
      assert Decision(r.decision.value, GetAction(g, agent, s).action) == r.decision;
    }
  }

  /** The worked case of a ghost with three legal actions whose successors
      are worth 2, 4 and 6: the chance node is worth their mean 4, not their
      minimum 2. */
  lemma ChanceExample<S, A>(g: Game<S, A>, agent: Agent<S>, s: S, depth: nat, index: nat)
    requires ValidGame(g) && depth <= agent.depth && 0 < index < g.numAgents && !Cutoff(g, agent, s, depth)
    requires var outs := Children(g, agent, s, depth, index, g.legalActions(s, index));
      |outs| == 3 && outs[0].Done? && outs[1].Done? && outs[2].Done?
      && outs[0].decision.value == Fin(2.0) && outs[1].decision.value == Fin(4.0) && outs[2].decision.value == Fin(6.0)
    ensures Expectimax(g, agent, s, depth, index) == Done(Decision(Fin(4.0), None))
  {
    var outs := Children(g, agent, s, depth, index, g.legalActions(s, index));
    var vals := ValuesOf(outs);
    assert vals == [Fin(2.0), Fin(4.0), Fin(6.0)];
    assert !Failed(outs);
    ChanceNode(g, agent, s, depth, index);
    assert RealSum(vals, 2) == 6.0;
    assert RealSum(vals, 0) == 2.0 + (4.0 + RealSum(vals, 2));
  }

  /** No expectimax value is ever +inf: leaves are finite, a max node starts
      from -inf and only takes successor values, and a chance node averages
      values that are not +inf. (So the nan of -inf + inf cannot arise.) */
  lemma {:induction false} NeverPosInf<S, A>(g: Game<S, A>, agent: Agent<S>, s: S, depth: nat, index: nat)
    requires ValidGame(g) && depth <= agent.depth && index < g.numAgents
    ensures var r := Expectimax(g, agent, s, depth, index); r.Done? ==> !r.decision.value.PosInf?
    decreases agent.depth - depth, g.numAgents - index, 1
  {
    if !Cutoff(g, agent, s, depth) {
      var actions := g.legalActions(s, index);
      var outs := Children(g, agent, s, depth, index, actions);
      var vals := ValuesOf(outs);
      forall j | 0 <= j < |vals|
        ensures !vals[j].PosInf?
      {
        assert outs[j] == Child(g, agent, s, depth, index, actions[j]);
        ChildNeverPosInf(g, agent, s, depth, index, actions[j]);
      }
      if index == 0 {
        PickMaxIsFirstMax(vals, actions);
      } else if |actions| > 0 {
        AccumulateNoPosInf(vals, 0, 1.0 / (|actions| as real), Fin(0.0));
      }
    }
  }

  lemma {:induction false} ChildNeverPosInf<S, A>(g: Game<S, A>, agent: Agent<S>, s: S, depth: nat, index: nat, a: A)
    requires ValidGame(g) && depth < agent.depth && index < g.numAgents
    ensures var r := Child(g, agent, s, depth, index, a); r.Done? ==> !r.decision.value.PosInf?
    decreases agent.depth - depth, g.numAgents - index, 0
  {
    if index == 0 {
      NeverPosInf(g, agent, g.successor(s, 0, a), depth, 1);
    } else {
      var next := NextTurn(g.numAgents, Turn(depth, index));
      NeverPosInf(g, agent, g.successor(s, index, a), next.depth, next.agent);
    }
  }

  /** expectimax, as the recursion the agent runs. */
  method ExpectimaxNode<S, A>(g: Game<S, A>, agent: Agent<S>, s: S, depth: nat, index: nat) returns (r: Outcome<A>)
    requires ValidGame(g) && depth <= agent.depth && index < g.numAgents
    ensures r == Expectimax(g, agent, s, depth, index)
    decreases agent.depth - depth, g.numAgents - index, 2
  {
    if g.isWin(s) || g.isLose(s) || depth == agent.depth {
      return Done(Decision(Fin(agent.evaluate(s)), None));
    }
    if index == 0 {
      r := MaxValue(g, agent, s, depth);
    } else {
      r := ExpValue(g, agent, s, depth, index);
    }
  }

  /** max_value: the loop over Pacman's legal actions. */
  method MaxValue<S, A>(g: Game<S, A>, agent: Agent<S>, s: S, depth: nat) returns (r: Outcome<A>)
    requires ValidGame(g) && depth < agent.depth
    ensures var actions := g.legalActions(s, 0); r == MaxRule(Children(g, agent, s, depth, 0, actions), actions)
    decreases agent.depth - depth, g.numAgents, 1
  {
    var actions := g.legalActions(s, 0);
    ghost var outs := Children(g, agent, s, depth, 0, actions);
    ghost var vals := ValuesOf(outs);
    var v: Value, best: Option<A> := NegInf, None;
    for k := 0 to |actions|
      invariant forall j :: 0 <= j < k ==> outs[j].Done?
      invariant PickMax(vals, actions, k, v, best) == PickMax(vals, actions, 0, NegInf, None)
    {
      var successor := g.successor(s, 0, actions[k]);
      var child := ExpectimaxNode(g, agent, successor, depth, 1);
      assert outs[k] == Child(g, agent, s, depth, 0, actions[k]);
      assert child == outs[k];
      if child.DivisionByZero? {
        return DivisionByZero;
      }
      assert vals[k] == child.decision.value;
      if Less(v, child.decision.value) {
        v, best := child.decision.value, Some(actions[k]);
      }
    }
    r := Done(Decision(v, best));
  }

  /** exp_value: the averaging loop over a ghost's legal actions. */
  method ExpValue<S, A>(g: Game<S, A>, agent: Agent<S>, s: S, depth: nat, index: nat) returns (r: Outcome<A>)
    requires ValidGame(g) && depth < agent.depth && 0 < index < g.numAgents
    ensures r == ChanceRule(Children(g, agent, s, depth, index, g.legalActions(s, index)))
    decreases agent.depth - depth, g.numAgents - index, 1
  {
    var actions := g.legalActions(s, index);
    ghost var outs := Children(g, agent, s, depth, index, actions);
    ghost var vals := ValuesOf(outs);
    if |actions| == 0 {
      return DivisionByZero;
    }
    var p := 1.0 / (|actions| as real);
    var v := Fin(0.0);
    for k := 0 to |actions|
      invariant forall j :: 0 <= j < k ==> outs[j].Done?
      invariant Accumulate(vals, k, p, v) == Accumulate(vals, 0, p, Fin(0.0))
    {
      var successor := g.successor(s, index, actions[k]);
      var child;
      if index == g.numAgents - 1 {
        child := ExpectimaxNode(g, agent, successor, depth + 1, 0);
        assert NextTurn(g.numAgents, Turn(depth, index)) == Turn(depth + 1, 0);
      } else {
        child := ExpectimaxNode(g, agent, successor, depth, index + 1);
        assert NextTurn(g.numAgents, Turn(depth, index)) == Turn(depth, index + 1);
      }
      assert outs[k] == Child(g, agent, s, depth, index, actions[k]);
      assert child == outs[k];
      if child.DivisionByZero? {
        return DivisionByZero;
      }
      assert vals[k] == child.decision.value;
      v := AddScaled(v, p, child.decision.value);
    }
    r := Done(Decision(v, None));
  }
}
