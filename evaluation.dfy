/** betterEvaluationFunction: a hand-written score for the states the
    searches stop at. It starts from the game score; rewards being near food
    and near scared ghosts; penalises being near active ghosts; and charges
    for every food pellet and power capsule still on the board. */
module Evaluation {

  datatype Position = Position(x: real, y: real)

  /** A ghost's position (not necessarily on grid points) and its scared
      timer. */
  datatype GhostState = GhostState(position: Position, scaredTimer: int)

  /** The queries the function makes of a game state. */
  datatype Snapshot = Snapshot(
    pacman: Position,
    food: seq<Position>,
    ghosts: seq<GhostState>,
    capsules: seq<Position>,
    score: real)

  function Abs(x: real): real {
    if x < 0.0 then -x else x
  }

  /** Manhattan distance: never negative, and zero exactly on the same square. */
  function Manhattan(p: Position, q: Position): (d: real)
    ensures d >= 0.0
    ensures d == 0.0 <==> p == q
  {
    Abs(p.x - q.x) + Abs(p.y - q.y)
  }

  /** min([manhattanDistance(pacman, f) for f in food]). */
  function NearestFood(pacman: Position, food: seq<Position>): (d: real)
    requires |food| > 0
    ensures forall f :: f in food ==> d <= Manhattan(pacman, f)
    ensures exists f :: f in food && d == Manhattan(pacman, f)
  {
    if |food| == 1 then Manhattan(pacman, food[0])
    else
      var rest := NearestFood(pacman, food[1..]);
      assert forall f :: f in food ==> f == food[0] || f in food[1..];
      if Manhattan(pacman, food[0]) <= rest then Manhattan(pacman, food[0]) else rest
  }

  /** What betterEvaluationFunction returns: a score, or the
      ZeroDivisionError of one of its two unguarded divisions. */
  datatype Evaluated = Score(value: real) | DivisionByZero

  /** Both unguarded divisions are defined: Pacman does not stand on a food
      pellet, and no scared ghost is at Pacman's position. */
  predicate Defined(st: Snapshot) {
    && st.pacman !in st.food
    && forall gh :: gh in st.ghosts && gh.scaredTimer > 0 ==> gh.position != st.pacman
  }

  /** +1/distance to the nearest food, only while food remains. */
  function FoodTerm(pacman: Position, food: seq<Position>): real
    requires pacman !in food
  {
    if |food| == 0 then 0.0
    else
      var d := NearestFood(pacman, food);
      assert d > 0.0;
      1.0 / d
  }

  /** One ghost's contribution: +10/distance when scared, -2/distance when
      active and not on Pacman's square, nothing when active and on it. */
  function GhostTerm(pacman: Position, gh: GhostState): real
    requires gh.scaredTimer > 0 ==> gh.position != pacman
  {
    var d := Manhattan(pacman, gh.position);
    if gh.scaredTimer > 0 then 10.0 / d
    else if d > 0.0 then -(2.0 / d)
    else 0.0
  }

  function GhostTotal(pacman: Position, ghosts: seq<GhostState>): real
    requires forall gh :: gh in ghosts && gh.scaredTimer > 0 ==> gh.position != pacman
  {
    if |ghosts| == 0 then 0.0
    else GhostTerm(pacman, ghosts[0]) + GhostTotal(pacman, ghosts[1..])
  }

  /** The evaluation as one formula: the reference the method is proved
      against. */
  function BetterEvaluation(st: Snapshot): real
    requires Defined(st)
  {
    st.score + FoodTerm(st.pacman, st.food) + GhostTotal(st.pacman, st.ghosts)
      - 2.0 * (|st.food| as real) - 20.0 * (|st.capsules| as real)
  }

  /** A scared ghost always raises the evaluation and an active one never
      does; an active ghost on Pacman's own square adds nothing. */
  lemma GhostTermSign(pacman: Position, gh: GhostState)
    requires gh.scaredTimer > 0 ==> gh.position != pacman
    ensures gh.scaredTimer > 0 ==> GhostTerm(pacman, gh) > 0.0
    ensures gh.scaredTimer <= 0 ==> GhostTerm(pacman, gh) <= 0.0
    ensures gh.scaredTimer <= 0 && gh.position == pacman ==> GhostTerm(pacman, gh) == 0.0
  {
  }

  /** The ghosts' contributions add up over any split of the ghost list, so
      they may be summed in the source's left-to-right order. */
  lemma {:induction false} GhostTotalAppend(pacman: Position, a: seq<GhostState>, b: seq<GhostState>)
    requires forall gh :: gh in a + b && gh.scaredTimer > 0 ==> gh.position != pacman
    ensures GhostTotal(pacman, a + b) == GhostTotal(pacman, a) + GhostTotal(pacman, b)
  {
    if |a| == 0 {
      assert a + b == b;
    } else {
      assert (a + b)[0] == a[0];
      assert (a + b)[1..] == a[1..] + b;
      GhostTotalAppend(pacman, a[1..], b);
    }
  }

  /** A nearer pellet is worth more: 1/d shrinks as d grows. */
  lemma ReciprocalAntitone(d: real, e: real)
    requires 0.0 < d <= e
    ensures 1.0 / e <= 1.0 / d
  {
    assert 1.0 / e * e == 1.0 && 1.0 / d * d == 1.0;
    assert (1.0 / e) * d <= (1.0 / e) * e;
  }

  /** With food left, the food term is positive and it is the reciprocal of
      the nearest pellet's distance: no pellet is worth more. */
  lemma FoodTermNearest(pacman: Position, food: seq<Position>)
    requires pacman !in food && |food| > 0
    ensures FoodTerm(pacman, food) > 0.0
    ensures forall f :: f in food ==> FoodTerm(pacman, food) >= 1.0 / Manhattan(pacman, f)
    ensures exists f :: f in food && FoodTerm(pacman, food) == 1.0 / Manhattan(pacman, f)
  {
    var d := NearestFood(pacman, food);
    assert d > 0.0;
    forall f | f in food
      ensures 1.0 / d >= 1.0 / Manhattan(pacman, f)
    {
      ReciprocalAntitone(d, Manhattan(pacman, f));
    }
  }

  /** betterEvaluationFunction, step by step as the source accumulates
      predict_score: it fails exactly when a division is by zero, and
      otherwise returns the formula BetterEvaluation. */
  method BetterEvaluationFunction(st: Snapshot) returns (r: Evaluated)
    ensures r.DivisionByZero? <==> !Defined(st)
    ensures r.Score? ==> Defined(st) && r.value == BetterEvaluation(st)
  {
    var predicted := st.score;
    if |st.food| > 0 {
      var closest := NearestFood(st.pacman, st.food);
      if closest == 0.0 {
        return DivisionByZero;
      }
      predicted := predicted + 1.0 / closest;
    }
    assert st.pacman !in st.food;
    for k := 0 to |st.ghosts|
      invariant forall gh :: gh in st.ghosts[..k] && gh.scaredTimer > 0 ==> gh.position != st.pacman
      invariant predicted == st.score + FoodTerm(st.pacman, st.food) + GhostTotal(st.pacman, st.ghosts[..k])
    {
      var gh := st.ghosts[k];
      var dist := Manhattan(st.pacman, gh.position);
      assert st.ghosts[..k + 1] == st.ghosts[..k] + [gh];
      if gh.scaredTimer > 0 {
        if dist == 0.0 {
          return DivisionByZero;
        }
        predicted := predicted + 10.0 / dist;
      } else if dist > 0.0 {
        predicted := predicted - 2.0 / dist;
      }
      GhostTotalAppend(st.pacman, st.ghosts[..k], [gh]);
    }
    assert st.ghosts[..|st.ghosts|] == st.ghosts;
    predicted := predicted - 2.0 * (|st.food| as real);
    predicted := predicted - 20.0 * (|st.capsules| as real);
    r := Score(predicted);
  }
}
